/**
 Allocation of the general registers. A value that does not fit is spilled to the stack
 frame and reloaded when an instruction needs it. The code emitted for that is run on a
 machine, which shows that no value gets lost.
 */
module RegisterAllocator {
  import opened Options
  import opened StackSlots

  // ---- the machine ----

  datatype Code = Str(r: nat, offset: int) | Ldr(r: nat, offset: int) | MoveSp(delta: int)

  datatype Machine = Machine(regs: map<nat, int>, mem: map<int, int>, sp: int)

  function Word(mem: map<int, int>, a: int): int {
    if a in mem then mem[a] else 0
  }

  function RegValue(regs: map<nat, int>, r: nat): int {
    if r in regs then regs[r] else 0
  }

  function Do(c: Code, m: Machine): Machine {
    match c
    case Str(r, offset) => m.(mem := m.mem[m.sp + offset := RegValue(m.regs, r)])
    case Ldr(r, offset) => m.(regs := m.regs[r := Word(m.mem, m.sp + offset)])
    case MoveSp(delta) => m.(sp := m.sp + delta)
  }

  function DoAll(code: seq<Code>, m: Machine): Machine {
    if code == [] then m else DoAll(code[1..], Do(code[0], m))
  }

  lemma {:induction false} DoSum(a: seq<Code>, b: seq<Code>, m: Machine)
    ensures DoAll(a + b, m) == DoAll(b, DoAll(a, m))
  {
    if a == [] {
      assert a + b == b;
    } else {
      assert (a + b)[1..] == a[1..] + b;
      DoSum(a[1..], b, Do(a[0], m));
    }
  }

  lemma DoOne(c: Code, m: Machine)
    ensures DoAll([c], m) == Do(c, m)
  {
    assert [c][1..] == [];
  }

  // ---- where values are ----

  /** Registers and slots of the variables, and the size of the frame. */
  datatype Places = Places(reg: map<nat, nat>, spilled: set<nat>, stackpos: map<nat, nat>, stackSize: nat)

  ghost predicate Distinct(s: Places) {
    && (forall u, v :: u in s.reg && v in s.reg && u != v ==> s.reg[u] != s.reg[v])
    && s.reg.Keys !! s.spilled
    && s.spilled <= s.stackpos.Keys
    && (forall u, v :: u in s.spilled && v in s.spilled && u != v ==> s.stackpos[u] != s.stackpos[v])
  }

  /**
   Every variable's value `vals[v]` is in its register or at the frame base minus its stack
   position. The stack pointer is `shift` below the place that the frame size tells.
   */
  ghost predicate Placed(s: Places, m: Machine, base: int, vals: map<nat, int>, shift: int) {
    && m.sp + s.stackSize == base - shift
    && (forall v :: v in s.reg ==> v in vals && RegValue(m.regs, s.reg[v]) == vals[v])
    && (forall v :: v in s.spilled ==> v in vals && v in s.stackpos && Word(m.mem, base - s.stackpos[v]) == vals[v])
  }

  /** The code brings the machine from the places `s` to the places `s'`, whatever the values are. */
  ghost predicate Moves(s: Places, code: seq<Code>, s': Places, shift: int) {
    forall m: Machine, base: int, vals: map<nat, int> :: MovesFrom(s, code, s', shift, m, base, vals)
  }

  ghost predicate MovesFrom(s: Places, code: seq<Code>, s': Places, shift: int, m: Machine, base: int, vals: map<nat, int>) {
    Placed(s, m, base, vals, 0) ==> Placed(s', DoAll(code, m), base, vals, shift)
  }

  lemma MovesNothing(s: Places)
    ensures Moves(s, [], s, 0)
  {
  }

  lemma MovesThen(s: Places, a: seq<Code>, s': Places, b: seq<Code>, s'': Places)
    requires Moves(s, a, s', 0) && Moves(s', b, s'', 0)
    ensures Moves(s, a + b, s'', 0)
  {
    hide Placed, DoAll;
    forall m: Machine, base: int, vals: map<nat, int>
      ensures MovesFrom(s, a + b, s'', 0, m, base, vals)
    {
      DoSum(a, b, m);
      assert MovesFrom(s, a, s', 0, m, base, vals);
      assert MovesFrom(s', b, s'', 0, DoAll(a, m), base, vals);
    }
  }

  // ---- code that makes room for new values ----

  ghost predicate EqualOff(a: map<nat, int>, b: map<nat, int>, off: set<nat>) {
    forall v :: v !in off ==> (v in a <==> v in b) && (v in a && v in b ==> a[v] == b[v])
  }

  /** Like `Moves`, but variables in `news` may get places as well, with whatever value is there. */
  ghost predicate Carries(s: Places, code: seq<Code>, s': Places, news: set<nat>) {
    forall m: Machine, base: int, vals: map<nat, int> :: CarriesFrom(s, code, s', news, m, base, vals)
  }

  ghost predicate CarriesFrom(s: Places, code: seq<Code>, s': Places, news: set<nat>, m: Machine, base: int, vals: map<nat, int>) {
    Placed(s, m, base, vals, 0) ==> exists vals': map<nat, int> :: Carried(s', DoAll(code, m), base, vals, vals', news)
  }

  ghost predicate Carried(s: Places, m: Machine, base: int, vals: map<nat, int>, vals': map<nat, int>, news: set<nat>) {
    EqualOff(vals, vals', news) && Placed(s, m, base, vals', 0)
  }

  lemma MovesCarries(s: Places, code: seq<Code>, s': Places, news: set<nat>)
    requires Moves(s, code, s', 0)
    ensures Carries(s, code, s', news)
  {
    hide Placed, DoAll;
    forall m: Machine, base: int, vals: map<nat, int>
      ensures CarriesFrom(s, code, s', news, m, base, vals)
    {
      assert MovesFrom(s, code, s', 0, m, base, vals);
      if Placed(s, m, base, vals, 0) {
        assert Carried(s', DoAll(code, m), base, vals, vals, news);
      }
    }
  }

  lemma CarriesThen(s: Places, a: seq<Code>, s': Places, b: seq<Code>, s'': Places, news: set<nat>)
    requires Carries(s, a, s', news) && Carries(s', b, s'', news)
    ensures Carries(s, a + b, s'', news)
  {
    hide Placed, DoAll;
    forall m: Machine, base: int, vals: map<nat, int>
      ensures CarriesFrom(s, a + b, s'', news, m, base, vals)
    {
      if Placed(s, m, base, vals, 0) {
        DoSum(a, b, m);
        assert CarriesFrom(s, a, s', news, m, base, vals);
        var vals' :| Carried(s', DoAll(a, m), base, vals, vals', news);
        assert CarriesFrom(s', b, s'', news, DoAll(a, m), base, vals');
        var vals'' :| Carried(s'', DoAll(b, DoAll(a, m)), base, vals', vals'', news);
        assert Carried(s'', DoAll(a + b, m), base, vals, vals'', news);
      }
    }
  }

  /** A variable without a value gets a register: its value is what is in the register. */
  lemma NewPlace(s: Places, v: nat, r: nat, news: set<nat>)
    requires v !in s.reg && v !in s.spilled && v in news
    ensures Carries(s, [], s.(reg := s.reg[v := r]), news)
  {
    var s' := s.(reg := s.reg[v := r]);
    forall m: Machine, base: int, vals: map<nat, int>
      ensures CarriesFrom(s, [], s', news, m, base, vals)
    {
      if Placed(s, m, base, vals, 0) {
        assert Carried(s', DoAll([], m), base, vals, vals[v := RegValue(m.regs, r)], news);
      }
    }
  }

  /** The result of an instruction is written to the register of its variable; nothing else is affected. */
  lemma ResultWritten(s: Places, m: Machine, base: int, vals: map<nat, int>, v: nat, x: int)
    requires Distinct(s) && Placed(s, m, base, vals, 0) && v in s.reg
    ensures Placed(s, m.(regs := m.regs[s.reg[v] := x]), base, vals[v := x], 0)
  {
  }

  const REGISTERS: nat := 12
  const UINT32_MAX: nat := 0xFFFF_FFFF

  /** Spilling `v` from register `r`: grow the frame if needed, then store. */
  function SpillCode(grew: bool, r: nat, offset: int): seq<Code> {
    (if grew then [MoveSp(-8)] else []) + [Str(r, offset)]
  }

  lemma SpillStores(grew: bool, r: nat, offset: int)
    ensures HasStore(SpillCode(grew, r, offset))
  {
    var code := SpillCode(grew, r, offset);
    assert code[|code| - 1].Str?;
  }

  /** How far the code moves the stack pointer. */
  function Delta(code: seq<Code>): int {
    if code == [] then 0 else Delta(code[1..]) + if code[0].MoveSp? then code[0].delta else 0
  }

  lemma {:induction false} DeltaMoves(code: seq<Code>, m: Machine)
    ensures DoAll(code, m).sp == m.sp + Delta(code)
  {
    if code != [] {
      DeltaMoves(code[1..], Do(code[0], m));
    }
  }

  lemma {:induction false} DeltaSum(a: seq<Code>, b: seq<Code>)
    ensures Delta(a + b) == Delta(a) + Delta(b)
  {
    if a == [] {
      assert a + b == b;
    } else {
      assert (a + b)[1..] == a[1..] + b;
      DeltaSum(a[1..], b);
    }
  }

  lemma SpillDelta(grew: bool, r: nat, offset: int)
    ensures Delta(SpillCode(grew, r, offset)) == if grew then -8 else 0
  {
    DeltaSum([MoveSp(-8)], [Str(r, offset)]);
    assert Delta([MoveSp(-8)]) == -8 && Delta([Str(r, offset)]) == 0;
  }

  /** All values are 0. */
  lemma Zeros(s: Places) returns (m: Machine, vals: map<nat, int>)
    requires Distinct(s)
    ensures Placed(s, m, 0, vals, 0)
  {
    m, vals := Machine(map[], map[], 0 - s.stackSize as int), map v | v in s.reg.Keys + s.spilled :: 0;
  }

  /** Code that keeps all values in place moves the stack pointer as the frame grows and shrinks. */
  lemma CarriesDelta(s: Places, code: seq<Code>, s': Places, news: set<nat>)
    requires Distinct(s) && Carries(s, code, s', news)
    ensures Delta(code) == s.stackSize - s'.stackSize
  {
    hide DoAll, Distinct;
    var m, vals := Zeros(s);
    DeltaMoves(code, m);
    assert CarriesFrom(s, code, s', news, m, 0, vals);
  }

  lemma ForgetsDelta(s: Places, code: seq<Code>, s': Places, shift: int)
    requires Distinct(s) && Forgets(s, code, s', shift)
    ensures Delta(code) == s.stackSize - s'.stackSize - shift
  {
    hide DoAll, Distinct;
    var m, vals := Zeros(s);
    DeltaMoves(code, m);
    assert ForgetsFrom(s, code, s', shift, m, 0, vals, 0);
  }

  /** Room for a value in the frame. */
  ghost predicate HasRoom(slots: seq<Slot>) {
    exists p: nat :: Free(slots, p, 8)
  }

  lemma SpillMoves(s: Places, s': Places, v: nat, grew: bool)
    requires Distinct(s) && v in s.reg && Distinct(s')
    requires s'.reg == s.reg - {v} && s'.spilled == s.spilled + {v} && s'.stackSize == s.stackSize + (if grew then 8 else 0)
    requires forall u :: u in s.spilled ==> s'.stackpos[u] == s.stackpos[u]
    ensures Moves(s, SpillCode(grew, s.reg[v], s'.stackSize - s'.stackpos[v]), s', 0)
  {
    var r, offset := s.reg[v], s'.stackSize - s'.stackpos[v];
    var code := SpillCode(grew, r, offset);
    forall m: Machine, base: int, vals: map<nat, int>
      ensures MovesFrom(s, code, s', 0, m, base, vals)
    {
      if Placed(s, m, base, vals, 0) {
        var m1 := if grew then Do(MoveSp(-8), m) else m;
        DoSum(if grew then [MoveSp(-8)] else [], [Str(r, offset)], m);
        DoOne(MoveSp(-8), m);
        DoOne(Str(r, offset), m1);
        var m2 := Do(Str(r, offset), m1);
        assert DoAll(code, m) == m2;
        assert m1.sp + offset == base - s'.stackpos[v];
        forall u | u in s'.spilled
          ensures u in vals && Word(m2.mem, base - s'.stackpos[u]) == vals[u]
        {
          if u != v {
            assert s'.stackpos[u] != s'.stackpos[v];
          }
        }
      }
    }
  }

  /** Reloading `v` into register `r`, then shrinking the frame. */
  function ReloadCode(r: nat, offset: int, released: nat): seq<Code> {
    [Ldr(r, offset)] + (if released > 0 then [MoveSp(released)] else [])
  }

  lemma ReloadMoves(s: Places, s': Places, v: nat, r: nat, released: nat)
    requires Distinct(s) && v in s.spilled && forall u :: u in s.reg ==> s.reg[u] != r
    requires s'.reg == s.reg[v := r] && s'.spilled == s.spilled - {v} && s'.stackSize + released == s.stackSize && s'.stackpos == s.stackpos
    ensures Moves(s, ReloadCode(r, s.stackSize - s.stackpos[v], released), s', 0)
  {
    var offset := s.stackSize - s.stackpos[v];
    var code := ReloadCode(r, offset, released);
    forall m: Machine, base: int, vals: map<nat, int>
      ensures MovesFrom(s, code, s', 0, m, base, vals)
    {
      if Placed(s, m, base, vals, 0) {
        var m1 := Do(Ldr(r, offset), m);
        var rest := if released > 0 then [MoveSp(released)] else [];
        DoSum([Ldr(r, offset)], rest, m);
        DoOne(Ldr(r, offset), m);
        DoOne(MoveSp(released), m1);
        assert m.sp + offset == base - s.stackpos[v];
      }
    }
  }

  /** Dropping variables whose values are not needed any more. */
  lemma ForgetPlaces(s: Places, s': Places, released: nat)
    requires s'.spilled <= s.spilled && s'.reg.Keys <= s.reg.Keys && (forall v :: v in s'.reg ==> s'.reg[v] == s.reg[v])
    requires s'.stackpos == s.stackpos && s'.stackSize + released == s.stackSize
    ensures Forgets(s, ReleaseCode(released), s', 0)
    ensures Forgets(s, [], s', released)
  {
    var code := ReleaseCode(released);
    forall m: Machine, base: int, vals: map<nat, int>, d: int
      ensures ForgetsFrom(s, code, s', 0, m, base, vals, d)
      ensures ForgetsFrom(s, [], s', released, m, base, vals, d)
    {
      DoOne(MoveSp(released), m);
    }
  }

  function ReleaseCode(released: nat): seq<Code> {
    if released > 0 then [MoveSp(released)] else []
  }

  /** Variables are dropped; the stack pointer gets off by `shift`. */
  ghost predicate Forgets(s: Places, code: seq<Code>, s': Places, shift: int) {
    forall m: Machine, base: int, vals: map<nat, int>, d: int :: ForgetsFrom(s, code, s', shift, m, base, vals, d)
  }

  ghost predicate ForgetsFrom(s: Places, code: seq<Code>, s': Places, shift: int, m: Machine, base: int, vals: map<nat, int>, d: int) {
    Placed(s, m, base, vals, d) ==> Placed(s', DoAll(code, m), base, vals, d + shift)
  }

  lemma ForgetsMoves(s: Places, code: seq<Code>, s': Places)
    requires Forgets(s, code, s', 0)
    ensures Moves(s, code, s', 0)
  {
    hide Placed, DoAll;
    forall m: Machine, base: int, vals: map<nat, int>
      ensures MovesFrom(s, code, s', 0, m, base, vals)
    {
      assert ForgetsFrom(s, code, s', 0, m, base, vals, 0);
    }
  }

  lemma ForgetsNothing(s: Places)
    ensures Forgets(s, [], s, 0)
  {
  }

  lemma ForgetsThen(s: Places, a: seq<Code>, s': Places, b: seq<Code>, s'': Places, x: int, y: int)
    requires Forgets(s, a, s', x) && Forgets(s', b, s'', y)
    ensures Forgets(s, a + b, s'', x + y)
  {
    hide Placed, DoAll;
    var z := x + y;
    forall m: Machine, base: int, vals: map<nat, int>, d: int
      ensures ForgetsFrom(s, a + b, s'', z, m, base, vals, d)
    {
      DoSum(a, b, m);
      assert ForgetsFrom(s, a, s', x, m, base, vals, d);
      assert ForgetsFrom(s', b, s'', y, DoAll(a, m), base, vals, d + x);
    }
  }

  // ---- a frame that shrinks without code ----

  /** Wherever the values are placed with the stack pointer off by `shift`, the reload of `v` delivers its value. */
  ghost predicate ReloadsRight(s: Places, v: nat, r: nat, released: nat, shift: int)
    requires v in s.spilled && v in s.stackpos
  {
    forall m: Machine, base: int, vals: map<nat, int> :: ReloadsRightFrom(s, v, r, released, shift, m, base, vals)
  }

  ghost predicate ReloadsRightFrom(s: Places, v: nat, r: nat, released: nat, shift: int, m: Machine, base: int, vals: map<nat, int>)
    requires v in s.spilled && v in s.stackpos
  {
    Placed(s, m, base, vals, shift) ==>
      v in vals && RegValue(DoAll(ReloadCode(r, s.stackSize - s.stackpos[v], released), m).regs, r) == vals[v]
  }

  lemma LoadedWord(m: Machine, r: nat, offset: int, released: nat)
    ensures RegValue(DoAll(ReloadCode(r, offset, released), m).regs, r) == Word(m.mem, m.sp + offset)
  {
    var rest := if released > 0 then [MoveSp(released)] else [];
    DoSum([Ldr(r, offset)], rest, m);
    DoOne(Ldr(r, offset), m);
    DoOne(MoveSp(released), Do(Ldr(r, offset), m));
  }

  /** The reload is right for all values if and only if the stack pointer is where the frame size says. */
  lemma ShiftedReload(s: Places, v: nat, r: nat, released: nat, shift: int)
    requires Distinct(s) && v in s.spilled
    ensures v in s.stackpos && (ReloadsRight(s, v, r, released, shift) <==> shift == 0)
  {
    hide DoAll, ReloadCode;
    var offset := s.stackSize - s.stackpos[v];
    if shift == 0 {
      forall m: Machine, base: int, vals: map<nat, int>
        ensures ReloadsRightFrom(s, v, r, released, shift, m, base, vals)
      {
        LoadedWord(m, r, offset, released);
        assert m.sp + s.stackSize == base ==> m.sp + offset == base - s.stackpos[v];
      }
    } else {
      var m, vals := WrongMachine(s, v, shift);
      LoadedWord(m, r, offset, released);
      assert !ReloadsRightFrom(s, v, r, released, shift, m, 0, vals);
    }
  }

  function Cell(s: Places, u: nat): int
    requires u in s.stackpos
  {
    0 - (s.stackpos[u] as int)
  }

  /** Everything is 0 but the word that the reload of `v` reads, and whatever is kept there. */
  lemma WrongMachine(s: Places, v: nat, shift: int) returns (m: Machine, vals: map<nat, int>)
    requires Distinct(s) && v in s.spilled && shift != 0
    ensures v in s.stackpos && Placed(s, m, 0, vals, shift) && v in vals && vals[v] == 0
    ensures Word(m.mem, m.sp + (s.stackSize - s.stackpos[v])) == 1
  {
    var wrong := Cell(s, v) - shift;
    vals := map u | u in s.reg.Keys + s.spilled :: if u in s.spilled && u in s.stackpos && Cell(s, u) == wrong then 1 else 0;
    m := Machine(map[], map[wrong := 1], -shift - s.stackSize);
  }

  // ---- which registers are taken ----

  ghost predicate HeldBy(reg: map<nat, nat>, j: nat) {
    exists v :: v in reg && reg[v] == j
  }

  /** A register is taken if and only if a variable has it, or an instruction holds it as a temporary, or it is the frame pointer. */
  ghost predicate Accounts(taken: seq<bool>, reg: map<nat, nat>, temps: set<nat>, framePointer: bool) {
    && |taken| == REGISTERS
    && (forall u, v :: u in reg && v in reg && u != v ==> reg[u] != reg[v])
    && (forall j: nat :: j < REGISTERS ==> (taken[j] <==> HeldBy(reg, j) || j in temps || Reserved(framePointer, j)))
    && (forall v :: v in reg ==> reg[v] < REGISTERS && reg[v] !in temps && !Reserved(framePointer, reg[v]))
    && (forall j :: j in temps ==> j < REGISTERS && !Reserved(framePointer, j))
  }

  predicate Reserved(framePointer: bool, j: nat) {
    framePointer && j == FRAME_POINTER
  }

  const FRAME_POINTER: nat := 11

  lemma TakeFree(taken: seq<bool>, reg: map<nat, nat>, temps: set<nat>, framePointer: bool, r: nat)
    requires Accounts(taken, reg, temps, framePointer) && r < REGISTERS && !taken[r]
    ensures Accounts(taken[r := true], reg, temps + {r}, framePointer) && !HeldBy(reg, r) && r !in temps && !Reserved(framePointer, r)
  {
  }

  lemma GiveTo(taken: seq<bool>, reg: map<nat, nat>, temps: set<nat>, framePointer: bool, v: nat, r: nat)
    requires Accounts(taken, reg, temps, framePointer) && v !in reg && r in temps
    ensures Accounts(taken, reg[v := r], temps - {r}, framePointer)
    ensures forall u :: u in reg ==> reg[u] != r
  {
    var reg' := reg[v := r];
    forall j: nat
      ensures HeldBy(reg', j) <==> HeldBy(reg, j) || j == r
    {
      if HeldBy(reg, j) {
        var u :| u in reg && reg[u] == j;
        assert u in reg' && reg'[u] == j;
      }
      assert v in reg' && reg'[v] == r;
    }
  }

  lemma TakeFrom(taken: seq<bool>, reg: map<nat, nat>, temps: set<nat>, framePointer: bool, v: nat)
    requires Accounts(taken, reg, temps, framePointer) && v in reg
    ensures Accounts(taken, reg - {v}, temps + {reg[v]}, framePointer)
    ensures reg[v] < |taken| && Accounts(taken[reg[v] := false], reg - {v}, temps, framePointer)
  {
    var reg' := reg - {v};
    forall j: nat
      ensures HeldBy(reg', j) <==> HeldBy(reg, j) && j != reg[v]
    {
      if HeldBy(reg, j) && j != reg[v] {
        var u :| u in reg && reg[u] == j;
        assert u in reg' && reg'[u] == j;
      }
    }
  }

  lemma FreeTemp(taken: seq<bool>, reg: map<nat, nat>, temps: set<nat>, framePointer: bool, r: nat)
    requires Accounts(taken, reg, temps, framePointer) && r in temps
    ensures r < |taken| && Accounts(taken[r := false], reg, temps - {r}, framePointer)
  {
    assert !HeldBy(reg, r);
  }

  // ---- how many registers are taken ----

  ghost function Range(lo: nat, hi: nat): (s: set<nat>)
    requires lo <= hi
    ensures |s| == hi - lo && forall j :: j in s <==> lo <= j < hi
    decreases hi - lo
  {
    if lo == hi then {} else Range(lo, hi - 1) + {hi - 1}
  }

  lemma {:induction false} ValuesSize(reg: map<nat, nat>)
    requires forall u, v :: u in reg && v in reg && u != v ==> reg[u] != reg[v]
    ensures |reg.Values| == |reg.Keys|
    decreases |reg.Keys|
  {
    if reg.Keys != {} {
      var v :| v in reg.Keys;
      var rest := reg - {v};
      assert rest.Keys == reg.Keys - {v};
      ValuesSize(rest);
      forall j
        ensures j in reg.Values <==> j in rest.Values || j == reg[v]
      {
        if j in reg.Values && j != reg[v] {
          var u :| u in reg && reg[u] == j;
          assert u in rest && rest[u] == j;
        }
      }
      assert reg.Values == rest.Values + {reg[v]};
      assert reg[v] !in rest.Values;
    } else {
      assert reg.Values == {};
    }
  }

  lemma SubsetSize<T>(a: set<T>, b: set<T>)
    requires a <= b
    ensures |a| <= |b|
  {
    assert b == a + (b - a);
  }

  ghost function Holders(reg: map<nat, nat>, temps: set<nat>, framePointer: bool): set<nat> {
    reg.Values + temps + if framePointer then {FRAME_POINTER} else {}
  }

  lemma HoldersSize(taken: seq<bool>, reg: map<nat, nat>, temps: set<nat>, framePointer: bool)
    requires Accounts(taken, reg, temps, framePointer)
    ensures |Holders(reg, temps, framePointer)| == |reg.Keys| + |temps| + if framePointer then 1 else 0
  {
    ValuesSize(reg);
    var reserved: set<nat> := if framePointer then {FRAME_POINTER} else {};
    assert reg.Values !! temps && (reg.Values + temps) !! reserved;
    hide Accounts;
    assert |reg.Values + temps| == |reg.Values| + |temps|;
  }

  lemma HoldersAre(taken: seq<bool>, reg: map<nat, nat>, temps: set<nat>, framePointer: bool)
    requires Accounts(taken, reg, temps, framePointer)
    ensures forall j :: j in Holders(reg, temps, framePointer) ==> j < REGISTERS
    ensures forall j: nat :: j < REGISTERS && taken[j] ==> j in Holders(reg, temps, framePointer)
  {
  }

  /** With all registers from `base` on taken, that many variables and temporaries hold them. */
  lemma TakenSize(taken: seq<bool>, reg: map<nat, nat>, temps: set<nat>, framePointer: bool, base: nat)
    requires Accounts(taken, reg, temps, framePointer) && base <= REGISTERS
    ensures |reg.Keys| + |temps| + (if framePointer then 1 else 0) <= REGISTERS
    ensures (forall j :: base <= j < REGISTERS ==> taken[j]) ==>
              |reg.Keys| + |temps| + (if framePointer then 1 else 0) >= REGISTERS - base
  {
    HoldersSize(taken, reg, temps, framePointer);
    HoldersAre(taken, reg, temps, framePointer);
    hide Holders;
    var all := Holders(reg, temps, framePointer);
    assert all <= Range(0, REGISTERS);
    SubsetSize(all, Range(0, REGISTERS));
    if forall j :: base <= j < REGISTERS ==> taken[j] {
      assert Range(base, REGISTERS) <= all;
      SubsetSize(Range(base, REGISTERS), all);
    }
  }

  // ---- code that stores or loads ----

  ghost predicate HasStore(code: seq<Code>) {
    exists k :: 0 <= k < |code| && code[k].Str?
  }

  ghost predicate HasLoad(code: seq<Code>) {
    exists k :: 0 <= k < |code| && code[k].Ldr?
  }

  lemma NoStore()
    ensures !HasStore([]) && !HasLoad([])
  {
  }

  lemma HasBoth(a: seq<Code>, b: seq<Code>)
    ensures HasStore(a) || HasStore(b) ==> HasStore(a + b)
    ensures HasLoad(a) || HasLoad(b) ==> HasLoad(a + b)
  {
    if HasStore(a) {
      var k :| 0 <= k < |a| && a[k].Str?;
      assert (a + b)[k].Str?;
    }
    if HasStore(b) {
      var k :| 0 <= k < |b| && b[k].Str?;
      assert (a + b)[|a| + k].Str?;
    }
    if HasLoad(a) {
      var k :| 0 <= k < |a| && a[k].Ldr?;
      assert (a + b)[k].Ldr?;
    }
    if HasLoad(b) {
      var k :| 0 <= k < |b| && b[k].Ldr?;
      assert (a + b)[|a| + k].Ldr?;
    }
  }

  /** The variables whose interval goes on after `cur`. */
  function Unexpired(vars: seq<nat>, liveEnd: nat -> nat, cur: nat): seq<nat> {
    if vars == [] then []
    else
      var last := vars[|vars| - 1];
      Unexpired(vars[..|vars| - 1], liveEnd, cur) + (if liveEnd(last) <= cur then [] else [last])
  }

  function Expired(vars: seq<nat>, liveEnd: nat -> nat, cur: nat): (r: set<nat>)
    ensures forall v :: v in r <==> v in vars && liveEnd(v) <= cur
  {
    if vars == [] then {}
    else
      var last := vars[|vars| - 1];
      Expired(vars[..|vars| - 1], liveEnd, cur) + (if liveEnd(last) <= cur then {last} else {})
  }

  ghost predicate Quiet(gone: set<nat>, allocas: set<nat>) {
    gone !! allocas
  }

  // ---- the allocator ----

  class Allocator {
    const hasFunccall: bool
    const maxIntegerArgs: nat
    /** End of the live interval of every variable. */
    const liveEnd: nat -> nat
    /** Local arrays and variables in memory, other than parameters on the stack. */
    const allocas: set<nat>
    const regAllocatedMap: array<bool>
    const stack: Stack
    var liveVars: seq<nat>
    var reg: map<nat, nat>
    var spilled: set<nat>
    /** Registers that an instruction holds for its own use. */
    ghost var temps: set<nat>

    ghost function Where(): Places
      reads this, stack
    {
      Places(reg, spilled, stack.stackpos, stack.stackSize)
    }

    ghost predicate Valid()
      reads this, regAllocatedMap, stack
    {
      && stack.Valid()
      && Accounts(regAllocatedMap[..], reg, temps, HasFramePointer())
      && (forall v :: v in spilled ==> OnStack(v) && v !in allocas)
      && (forall v :: Holds(stack.slots, v) ==> v !in reg && (v in spilled || v in allocas))
      && (forall v :: v in reg || v in spilled ==> v in liveVars)
      && (forall i, j :: 0 <= i < j < |liveVars| ==> liveVars[i] != liveVars[j])
      && (forall v :: v in liveVars && v in allocas ==> Holds(stack.slots, v))
    }

    ghost predicate OnStack(v: nat)
      reads stack
    {
      Holds(stack.slots, v) && v in stack.stackpos && stack.stackpos[v] == Lookup(stack.slots, v)
    }

    lemma PlacesDistinct()
      requires Valid()
      ensures Distinct(Where())
    {
      forall u, v | u in spilled && v in spilled && u != v
        ensures stack.stackpos[u] != stack.stackpos[v]
      {
        Disjoint(stack.slots, u, v);
      }
    }

    /** In functions with more than four integer arguments one register points to the arguments on the stack. */
    constructor (hasFunccall: bool, maxIntegerArgs: nat, liveEnd: nat -> nat, allocas: set<nat>)
      ensures Valid() && fresh(regAllocatedMap) && fresh(stack) && liveVars == [] && reg == map[] && spilled == {} && temps == {}
      ensures stack.slots == [] && stack.stackSize == 0
      ensures regAllocatedMap.Length == 12 && forall j :: 0 <= j < 12 ==> (regAllocatedMap[j] <==> maxIntegerArgs > 4 && j == 11)
      ensures this.hasFunccall == hasFunccall && this.maxIntegerArgs == maxIntegerArgs && this.liveEnd == liveEnd && this.allocas == allocas
    {
      this.hasFunccall, this.maxIntegerArgs, this.liveEnd, this.allocas := hasFunccall, maxIntegerArgs, liveEnd, allocas;
      regAllocatedMap := new bool[REGISTERS](_ => false);
      stack := new Stack();
      liveVars, reg, spilled, temps := [], map[], {}, {};
      new;
      if maxIntegerArgs > 4 {
        regAllocatedMap[FRAME_POINTER] := true;
      }
    }

    /** Registers that may hold arguments are left alone in functions that call. */
    function AllocBase(): (b: nat)
      ensures !hasFunccall ==> b == 0
      ensures hasFunccall ==> b <= 4 && b <= maxIntegerArgs && (b == 4 || b == maxIntegerArgs)
    {
      if !hasFunccall then 0 else if maxIntegerArgs > 4 then 4 else maxIntegerArgs
    }

    predicate HasFramePointer() {
      maxIntegerArgs > 4
    }

    /** Of the twelve registers, those that variables may get are taken. */
    ghost predicate AllTaken()
      reads this, regAllocatedMap
    {
      forall j :: 0 <= j < 12 && j < regAllocatedMap.Length && Spared(j) ==> regAllocatedMap[j]
    }

    /** In a function that calls, the first four registers hold arguments, as far as there are so many. */
    predicate Spared(j: nat) {
      hasFunccall ==> j >= 4 || j >= maxIntegerArgs
    }

    /** Registers that have been taken are none that hold arguments of calls. */
    ghost predicate Spares(before: seq<bool>, after: seq<bool>) {
      |before| == |after| && forall j :: 0 <= j < |after| && after[j] ==> before[j] || Spared(j)
    }

    lemma SparesNothing(taken: seq<bool>)
      ensures Spares(taken, taken)
    {
    }

    lemma SparesThen(a: seq<bool>, b: seq<bool>, c: seq<bool>)
      requires Spares(a, b) && Spares(b, c)
      ensures Spares(a, c)
    {
      assert forall j :: 0 <= j < |b| && b[j] ==> a[j] || Spared(j);
    }

    /** Registers that are held by variables and temporaries, and by the frame pointer. */
    ghost function Load(): nat
      reads this
    {
      |reg.Keys| + |temps| + if HasFramePointer() then 1 else 0
    }

    /** Registers run out exactly when there are as many holders as registers; below the base none need be held. */
    lemma LoadWhenTaken()
      requires Valid()
      ensures Load() <= REGISTERS && (AllTaken() ==> Load() >= REGISTERS - AllocBase())
    {
      TakenSize(regAllocatedMap[..], reg, temps, HasFramePointer(), AllocBase());
    }

    /** The first free register, which is taken for the time being. */
    method FindFree() returns (r: Option<nat>)
      requires Valid()
      modifies regAllocatedMap, this`temps
      ensures Valid()
      ensures r.Some? <==> !old(AllTaken())
      ensures match r
              case Some(i) =>
                && i < 12 && Spared(i) && (maxIntegerArgs > 4 ==> i != 11) && i !in old(temps) && temps == old(temps) + {i}
                && !old(regAllocatedMap[i]) && regAllocatedMap[..] == old(regAllocatedMap[..])[i := true]
                && forall j :: 0 <= j < i && Spared(j) ==> old(regAllocatedMap[j])
              case None => temps == old(temps) && regAllocatedMap[..] == old(regAllocatedMap[..])
    {
      hide Accounts;
      AccountedLength();
      for i := AllocBase() to REGISTERS
        invariant Valid() && temps == old(temps) && regAllocatedMap[..] == old(regAllocatedMap[..])
        invariant forall j :: AllocBase() <= j < i ==> regAllocatedMap[j]
      {
        if !regAllocatedMap[i] {
          assert Spared(i);
          TakeFree(regAllocatedMap[..], reg, temps, HasFramePointer(), i);
          ghost var taken := regAllocatedMap[..][i := true];
          regAllocatedMap[i] := true;
          temps := temps + {i};
          assert regAllocatedMap[..] == taken;
          return Some(i);
        }
      }
      return None;
    }

    lemma AccountedLength()
      requires Valid()
      ensures regAllocatedMap.Length == REGISTERS == 12 && AllocBase() <= REGISTERS
    {
    }

    ghost predicate Candidate(v: nat, whitelist: set<nat>)
      reads this
    {
      v in liveVars && v !in whitelist && v in reg && liveEnd(v) < UINT32_MAX
    }

    /** The live variable in a register whose interval ends first. */
    method GetMinIntervalRegVar(whitelist: set<nat>) returns (v: Option<nat>)
      ensures v.None? ==> forall u :: !Candidate(u, whitelist)
      ensures v.Some? ==> Candidate(v.value, whitelist) && forall u :: Candidate(u, whitelist) ==> liveEnd(v.value) <= liveEnd(u)
    {
      var min := UINT32_MAX;
      v := None;
      for i := 0 to |liveVars|
        invariant v.None? ==> min == UINT32_MAX
        invariant v.Some? ==> Candidate(v.value, whitelist) && min == liveEnd(v.value)
        invariant forall k :: 0 <= k < i && Candidate(liveVars[k], whitelist) ==> min <= liveEnd(liveVars[k]) && v.Some?
      {
        var e := liveVars[i];
        if e !in whitelist && liveEnd(e) < min && e in reg {
          min, v := liveEnd(e), Some(e);
        }
      }
    }

    /**
     A register at any price: if none is free, the candidate that is needed no longer than the
     others is spilled. Without a candidate an assertion of the compiler fails; here nothing is returned.
     */
    method AllocateGeneralRegister(whitelist: set<nat>) returns (r: Option<nat>, code: seq<Code>)
      requires Valid()
      modifies this`reg, this`spilled, this`temps, regAllocatedMap, stack
      ensures Valid()
      ensures r.None? <==> old(AllTaken()) && forall u :: !old(Candidate(u, whitelist))
      ensures r.None? ==> code == [] && reg == old(reg) && spilled == old(spilled) && temps == old(temps) && AllTaken()
      ensures r.Some? ==> r.value < 12 && (maxIntegerArgs > 4 ==> r.value != 11) && r.value !in old(temps) && temps == old(temps) + {r.value}
      ensures r.Some? && !Spared(r.value) ==> exists u :: u in old(reg) && old(reg)[u] == r.value
      ensures Spares(old(regAllocatedMap[..]), regAllocatedMap[..])
      ensures r.Some? && !old(AllTaken()) ==> code == [] && reg == old(reg) && spilled == old(spilled)
      ensures reg.Keys + spilled == old(reg.Keys + spilled) && reg.Keys <= old(reg.Keys) && forall v :: v in reg ==> reg[v] == old(reg)[v]
      ensures forall v :: v in whitelist ==> (v in reg <==> v in old(reg)) && (v in spilled <==> v in old(spilled))
      ensures old(spilled) <= spilled
      ensures r.Some? && old(AllTaken()) ==> HasStore(code) && Victimised(old(reg), old(spilled), r.value, old(liveVars), whitelist)
      ensures Moves(old(Where()), code, Where(), 0)
    {
      hide Holds, Lookup, Granted, StackSlots.WellFormed, Owner, Free, Moves, Valid, Accounts, HasStore;
      ghost var before := Where();
      AccountedLength();
      r := FindFree();
      code := [];
      MovesNothing(before);
      if r.None? {
        var victim := GetMinIntervalRegVar(whitelist);
        if victim.Some? {
          var minIntVar := victim.value;
          RegisterHeld(minIntVar);
          assert Candidate(minIntVar, whitelist) && old(Candidate(minIntVar, whitelist));
          var grew, ret, offset := Spill(minIntVar);
          r, code := Some(ret), SpillCode(grew, ret, offset);
          SpillStores(grew, ret, offset);
          assert Victim(old(reg), old(spilled), r.value, old(liveVars), whitelist, minIntVar) by {
            forall w | w in old(liveVars) && w !in whitelist && w in old(reg)
              ensures liveEnd(minIntVar) <= liveEnd(w)
            {
              assert liveEnd(w) < UINT32_MAX ==> old(Candidate(w, whitelist));
            }
          }
        } else {
          forall u
            ensures !old(Candidate(u, whitelist))
          {
            assert !Candidate(u, whitelist);
          }
        }
      }
    }

    /** One candidate, needed no longer than the others, has gone from register `r` to the stack. */
    ghost predicate Victimised(reg0: map<nat, nat>, spilled0: set<nat>, r: nat, vars: seq<nat>, whitelist: set<nat>)
      reads this
    {
      exists u :: Victim(reg0, spilled0, r, vars, whitelist, u)
    }

    ghost predicate Victim(reg0: map<nat, nat>, spilled0: set<nat>, r: nat, vars: seq<nat>, whitelist: set<nat>, u: nat)
      reads this
    {
      && u in vars && u !in whitelist && u in reg0 && reg0[u] == r
      && reg == reg0 - {u} && spilled == spilled0 + {u}
      && forall w :: w in vars && w !in whitelist && w in reg0 ==> liveEnd(u) <= liveEnd(w)
    }

    lemma KnownLive()
      requires Valid()
      ensures forall v :: v in reg || v in spilled ==> v in liveVars
    {
    }

    lemma SpilledElsewhere(v: nat)
      requires Valid() && v in spilled
      ensures v !in reg
    {
    }

    lemma RegisterHeld(v: nat)
      requires Valid() && v in reg
      ensures reg[v] < 12 && (maxIntegerArgs > 4 ==> reg[v] != 11) && reg[v] !in temps
    {
    }

    /** What variables and temporaries hold is taken, and none of them has the frame pointer. */
    lemma HeldAreTaken()
      requires Valid()
      ensures regAllocatedMap.Length == 12
      ensures forall v :: v in reg ==> reg[v] < 12 && regAllocatedMap[reg[v]] && (maxIntegerArgs > 4 ==> reg[v] != 11)
      ensures forall j :: j in temps ==> j < 12 && regAllocatedMap[j] && (maxIntegerArgs > 4 ==> j != 11)
    {
      forall v | v in reg
        ensures HeldBy(reg, reg[v])
      {
      }
    }

    /** If the registers can hold what may not be spilled, there is a register. */
    lemma NoVictimMeansFull(whitelist: set<nat>)
      requires Valid() && AllTaken() && (forall u :: !Candidate(u, whitelist)) && forall v :: v in liveVars ==> liveEnd(v) < UINT32_MAX
      ensures reg.Keys <= whitelist
      ensures |reg.Keys| + |temps| + (if HasFramePointer() then 1 else 0) >= REGISTERS - AllocBase()
    {
      LoadWhenTaken();
      forall v | v in reg.Keys
        ensures v in whitelist
      {
        assert !Candidate(v, whitelist);
      }
    }

    /** Give back a register by its number. */
    method ReleaseTemporary(r: nat)
      requires Valid() && r in temps
      modifies this`temps, regAllocatedMap
      ensures Valid() && temps == old(temps) - {r}
      ensures r < REGISTERS && regAllocatedMap[..] == old(regAllocatedMap[..])[r := false]
    {
      hide Accounts;
      AccountedLength();
      FreeTemp(regAllocatedMap[..], reg, temps, HasFramePointer(), r);
      ghost var taken := regAllocatedMap[..][r := false];
      regAllocatedMap[r] := false;
      temps := temps - {r};
      assert regAllocatedMap[..] == taken;
    }

    /**
     A variable begins to live and needs a register. If none is free, the candidate that is needed
     no longer than the others gives up its own. Here the stack pointer is lowered whether the frame
     grows or not, so all values stay in place if and only if nothing is spilled into room within the frame.
     */
    method Begin(v: nat, operands: set<nat>, globals: set<nat>) returns (ok: bool, code: seq<Code>)
      requires Valid() && v !in liveVars && v !in allocas && v in operands
      modifies this`liveVars, this`reg, this`spilled, this`temps, regAllocatedMap, stack
      ensures Valid() && liveVars == old(liveVars) + [v] && temps == old(temps)
      ensures ok <==> !old(AllTaken()) || exists u :: old(Candidate(u, operands))
      ensures !ok ==> reg == old(reg) && spilled == old(spilled) && code == [] && AllTaken() && forall u :: !Candidate(u, operands)
      ensures !old(AllTaken()) ==>
                code == [] && spilled == old(spilled) && v in reg && reg == old(reg)[v := reg[v]] && reg[v] < 12 && Spared(reg[v])
                && forall j :: 0 <= j < reg[v] && Spared(j) ==> old(regAllocatedMap[j])
      ensures Spares(old(regAllocatedMap[..]), regAllocatedMap[..])
      ensures ok && old(AllTaken()) ==> Replaced(old(reg), old(spilled), v, operands, globals)
      ensures old(reg.Keys + spilled) - (globals - operands) <= reg.Keys + spilled <= old(reg.Keys + spilled) + {v}
      ensures old(spilled) <= spilled && (HasStore(code) <==> spilled != old(spilled))
      ensures reg.Keys <= old(reg.Keys) + {v} && (ok ==> v in reg) && forall u :: u in operands && u in old(reg) ==> u in reg
      ensures HasRoom(stack.slots) ==> HasRoom(old(stack.slots))
      ensures Delta(code) == old(stack.stackSize) - stack.stackSize - if HasStore(code) && HasRoom(old(stack.slots)) then 8 else 0
      ensures Carries(old(Where()), code, Where(), {v}) <==> !(HasStore(code) && HasRoom(old(stack.slots)))
    {
      hide Holds, Carries, Moves, Accounts, HasStore, HasRoom, Lookup, Replaced;
      ghost var before := Where();
      assert !Holds(stack.slots, v) && v !in reg && v !in spilled;
      NoStore();
      liveVars := liveVars + [v];
      var r := FindFree();
      ok := r.Some?;
      if ok {
        GiveRegister(v, r.value);
        code := [];
        NewPlace(before, v, r.value, {v});
      } else {
        assert forall u :: Candidate(u, operands) <==> old(Candidate(u, operands));
        ok, code := TakeOver(v, operands, globals);
      }
    }

    /** The candidate that is needed no longer than the others gives its register to `v`. */
    method TakeOver(v: nat, operands: set<nat>, globals: set<nat>) returns (ok: bool, code: seq<Code>)
      requires Valid() && v in liveVars && v !in reg && !Holds(stack.slots, v) && v in operands
      modifies this`reg, this`spilled, this`temps, stack
      ensures Valid() && temps == old(temps)
      ensures ok <==> exists u :: old(Candidate(u, operands))
      ensures !ok ==> reg == old(reg) && spilled == old(spilled) && code == []
      ensures ok ==> Replaced(old(reg), old(spilled), v, operands, globals)
      ensures old(reg.Keys + spilled) - (globals - operands) <= reg.Keys + spilled <= old(reg.Keys + spilled) + {v}
      ensures old(spilled) <= spilled && (HasStore(code) <==> spilled != old(spilled))
      ensures reg.Keys <= old(reg.Keys) + {v} && (ok ==> v in reg) && forall u :: u in operands && u in old(reg) ==> u in reg
      ensures HasRoom(stack.slots) ==> HasRoom(old(stack.slots))
      ensures Delta(code) == old(stack.stackSize) - stack.stackSize - if HasStore(code) && HasRoom(old(stack.slots)) then 8 else 0
      ensures Carries(old(Where()), code, Where(), {v}) <==> !(HasStore(code) && HasRoom(old(stack.slots)))
    {
      hide Holds, Carries, Moves, Accounts, HasStore, HasRoom, SpillCode, Lookup, Valid, Distinct;
      ghost var before := Where();
      PlacesDistinct();
      NoStore();
      code := [];
      MovesNothing(before);
      MovesCarries(before, [], before, {v});
      var victim := GetMinIntervalRegVar(operands);
      ok := victim.Some?;
      if ok {
        var u := victim.value;
        assert old(Candidate(u, operands));
        TakenFromLive(u, v);
        RegisterHeld(u);
        var r;
        r, code := Evict(u, globals);
        ghost var middle := Where();
        GiveRegister(v, r);
        assert Replacement(old(reg), old(spilled), v, operands, globals, u) by {
          forall w | w in liveVars && w !in operands && w in old(reg)
            ensures liveEnd(u) <= liveEnd(w)
          {
            assert liveEnd(w) < UINT32_MAX ==> old(Candidate(w, operands));
          }
        }
        if HasStore(code) && HasRoom(old(stack.slots)) {
          if Carries(before, code, Where(), {v}) {
            CarriesDelta(before, code, Where(), {v});
          }
        } else {
          MovesCarries(before, code, middle, {v});
          NewPlace(middle, v, r, {v});
          CarriesThen(before, code, middle, [], Where(), {v});
          assert code + [] == code;
        }
      } else {
        assert forall u :: old(Candidate(u, operands)) <==> Candidate(u, operands);
      }
    }

    lemma TakenFromLive(u: nat, v: nat)
      requires Valid() && u in reg && v !in reg && !Holds(stack.slots, v)
      ensures u !in spilled && v !in spilled && u != v
    {
    }

    /** One candidate, needed no longer than the others, has given its register to `v`. The value of a global is not stored. */
    ghost predicate Replaced(reg0: map<nat, nat>, spilled0: set<nat>, v: nat, operands: set<nat>, globals: set<nat>)
      reads this
    {
      exists u :: Replacement(reg0, spilled0, v, operands, globals, u)
    }

    ghost predicate Replacement(reg0: map<nat, nat>, spilled0: set<nat>, v: nat, operands: set<nat>, globals: set<nat>, u: nat)
      reads this
    {
      && u in liveVars && u !in operands && u in reg0
      && reg == (reg0 - {u})[v := reg0[u]] && spilled == spilled0 + (if u in globals then {} else {u})
      && forall w :: w in liveVars && w !in operands && w in reg0 ==> liveEnd(u) <= liveEnd(w)
    }

    /** Take the register of `u`: a global is dropped, any other variable goes to the stack. */
    method Evict(u: nat, globals: set<nat>) returns (r: nat, code: seq<Code>)
      requires Valid() && u in reg && u in liveVars
      modifies this`reg, this`spilled, this`temps, stack
      ensures Valid() && r == old(reg)[u]
      ensures reg == old(reg) - {u} && spilled == old(spilled) + (if u in globals then {} else {u}) && temps == old(temps) + {r}
      ensures forall v :: v != u ==> (Holds(stack.slots, v) <==> Holds(old(stack.slots), v))
      ensures HasStore(code) <==> u !in globals
      ensures HasRoom(stack.slots) ==> HasRoom(old(stack.slots))
      ensures Delta(code) == old(stack.stackSize) - stack.stackSize - if HasStore(code) && HasRoom(old(stack.slots)) then 8 else 0
      ensures !(HasStore(code) && HasRoom(old(stack.slots))) ==> Moves(old(Where()), code, Where(), 0)
    {
      hide Holds, Moves, Accounts, HasStore, HasRoom, Forgets;
      if u in globals {
        ghost var before := Where();
        TakeFrom(regAllocatedMap[..], reg, temps, HasFramePointer(), u);
        r, code := reg[u], [];
        temps := temps + {r};
        reg := reg - {u};
        NoStore();
        ForgetPlaces(before, Where(), 0);
        ForgetsMoves(before, [], Where());
      } else {
        var grew, ret, offset := Spill(u);
        r, code := ret, SpillCode(true, ret, offset);
        SpillStores(true, ret, offset);
        SpillDelta(true, ret, offset);
      }
    }

    /** A temporary becomes the register of `v`. */
    method GiveRegister(v: nat, r: nat)
      requires Valid() && v in liveVars && v !in reg && !Holds(stack.slots, v) && r in temps
      modifies this`reg, this`temps
      ensures Valid() && reg == old(reg)[v := r] && temps == old(temps) - {r}
    {
      hide Accounts;
      GiveTo(regAllocatedMap[..], reg, temps, HasFramePointer(), v, r);
      reg := reg[v := r];
      temps := temps - {r};
    }

    method ReleaseRegister(v: nat)
      requires Valid() && v in reg
      modifies this`reg, regAllocatedMap
      ensures Valid() && reg == old(reg) - {v}
      ensures old(reg)[v] < REGISTERS && regAllocatedMap[..] == old(regAllocatedMap[..])[old(reg)[v] := false]
      ensures Forgets(old(Where()), [], Where(), 0)
    {
      hide Accounts, Holds;
      AccountedLength();
      RegisterHeld(v);
      ghost var before := Where();
      TakeFrom(regAllocatedMap[..], reg, temps, HasFramePointer(), v);
      ghost var taken := regAllocatedMap[..][reg[v] := false];
      regAllocatedMap[reg[v]] := false;
      assert regAllocatedMap[..] == taken;
      reg := reg - {v};
      ForgetPlaces(before, Where(), 0);
    }

    /**
     The interval of `liveVars[i]` is over: its register or its slot becomes free. For a local
     array the frame shrinks by `shift` without code, and does so if and only if the array
     owns the end of the frame.
     */
    method Expire(i: nat) returns (code: seq<Code>, ghost shift: nat)
      requires Valid() && i < |liveVars|
      modifies this`liveVars, this`reg, this`spilled, regAllocatedMap, stack
      ensures Valid() && liveVars == old(liveVars)[..i] + old(liveVars)[i + 1..]
      ensures reg == old(reg) - {old(liveVars)[i]} && spilled == old(spilled) - {old(liveVars)[i]}
      ensures old(liveVars)[i] !in allocas ==> shift == 0
      ensures old(liveVars)[i] in allocas ==>
                code == [] && shift == old(stack.stackSize) - stack.stackSize && old(stack.stackSize) > 0
                && (shift > 0 <==> Owner(old(stack.slots), old(stack.stackSize) - 1) == Some(old(liveVars)[i]))
      ensures old(liveVars)[i] in old(spilled) ==> (code == [] <==> stack.stackSize == old(stack.stackSize)) && |code| <= 1
      ensures old(liveVars)[i] !in old(spilled) ==> code == []
      ensures Spares(old(regAllocatedMap[..]), regAllocatedMap[..])
      ensures Forgets(old(Where()), code, Where(), shift)
    {
      hide Lookup, StackSlots.WellFormed, Owner, Free, Forgets, Accounts, Holds;
      ghost var before := Where();
      var v := liveVars[i];
      code, shift := [], 0;
      ForgetsNothing(before);
      if v in reg {
        ReleaseRegister(v);
        liveVars := liveVars[..i] + liveVars[i + 1..];
      } else if v in spilled || v in allocas {
        var isSpilled := v in spilled;
        var released := ReleaseSlot(i);
        if isSpilled {
          code := ReleaseCode(released);
        } else {
          shift := released;
        }
        ForgetPlaces(before, Where(), released);
      } else {
        liveVars := liveVars[..i] + liveVars[i + 1..];
      }
    }

    /** The interval of `liveVars[i]` is over, and its slot becomes free. */
    method ReleaseSlot(i: nat) returns (released: nat)
      requires Valid() && i < |liveVars| && liveVars[i] !in reg && (liveVars[i] in spilled || liveVars[i] in allocas)
      modifies this`liveVars, this`spilled, stack
      ensures Valid() && liveVars == old(liveVars)[..i] + old(liveVars)[i + 1..] && spilled == old(spilled) - {old(liveVars)[i]}
      ensures stack.stackpos == old(stack.stackpos) && released == old(stack.stackSize) - stack.stackSize
      ensures old(stack.stackSize) > 0 && (released > 0 <==> Owner(old(stack.slots), old(stack.stackSize) - 1) == Some(old(liveVars)[i]))
    {
      hide Lookup, StackSlots.WellFormed, Owner, Free, Revoked, Accounts;
      ghost var slots := stack.slots;
      var v := liveVars[i];
      released := stack.ReleaseOnStackVar(v);
      RevokedKeeps(slots, stack.slots, spilled - {v}, v);
      spilled := spilled - {v};
      liveVars := liveVars[..i] + liveVars[i + 1..];
    }

    /**
     Drop the variables whose interval is over. When a local array is among them the frame may
     shrink without any code that moves the stack pointer; `shift` says by how much.
     */
    method CheckLiveInterval(cur: nat) returns (code: seq<Code>, ghost shift: nat)
      requires Valid()
      modifies this`liveVars, this`reg, this`spilled, regAllocatedMap, stack
      ensures Valid() && liveVars == Unexpired(old(liveVars), liveEnd, cur)
      ensures reg == old(reg) - Expired(old(liveVars), liveEnd, cur) && spilled == old(spilled) - Expired(old(liveVars), liveEnd, cur)
      ensures Quiet(Expired(old(liveVars), liveEnd, cur), allocas) ==> shift == 0
      ensures Spares(old(regAllocatedMap[..]), regAllocatedMap[..])
      ensures Forgets(old(Where()), code, Where(), shift)
    {
      hide Lookup, StackSlots.WellFormed, Owner, Forgets, Holds, Swept, Quiet, Valid, Where, Spares;
      ghost var taken := regAllocatedMap[..];
      SparesNothing(taken);
      ghost var before, vars, k: nat, gone: set<nat> := Where(), liveVars, 0, {};
      code, shift := [], 0;
      ForgetsNothing(before);
      SweepStarts(vars, liveEnd, cur);
      var i := 0;
      while i < |liveVars|
        invariant Valid() && Swept(vars, k, liveVars, i, gone, liveEnd, cur)
        invariant reg == old(reg) - gone && spilled == old(spilled) - gone
        invariant Quiet(gone, allocas) ==> shift == 0
        invariant Spares(taken, regAllocatedMap[..])
        invariant Forgets(before, code, Where(), shift)
        decreases |liveVars| - i
      {
        var v := liveVars[i];
        SweepStep(vars, k, liveVars, i, gone, liveEnd, cur, allocas);
        k := k + 1;
        if liveEnd(v) <= cur {
          ghost var middle, taken1 := Where(), regAllocatedMap[..];
          var more;
          ghost var d;
          more, d := Expire(i);
          SparesThen(taken, taken1, regAllocatedMap[..]);
          ForgetsThen(before, code, middle, more, Where(), shift, d);
          code, shift, gone := code + more, shift + d, gone + {v};
        } else {
          i := i + 1;
        }
      }
      SweepEnds(vars, k, liveVars, i, gone, liveEnd, cur);
    }

    /**
     Before an instruction: all its operands are in registers at the same time. Spilled ones are
     reloaded, and globals, which need a register but have no value, get one. It fails if and only if
     at some point all registers are taken and nobody but operands could give one up.
     */
    method UpdateAllocation(operands: seq<nat>, globals: set<nat>) returns (ok: bool, code: seq<Code>)
      requires Valid() && temps == {} && forall v :: v in operands && v in globals ==> v in liveVars && v !in allocas
      modifies this`reg, this`spilled, this`temps, regAllocatedMap, stack
      ensures Valid() && temps == {}
      ensures old(reg.Keys + spilled) <= reg.Keys + spilled <= old(reg.Keys + spilled) + Members(operands) * globals
      ensures ok ==> reg.Keys + spilled == old(reg.Keys + spilled) + Members(operands) * globals
      ensures ok ==> forall v :: v in operands && v in reg.Keys + spilled ==> v in reg
      ensures !ok ==> AllTaken() && (forall u :: !Candidate(u, Members(operands))) && exists v :: v in operands && v !in reg
      ensures ok && (exists v :: v in operands && v in old(spilled)) ==> HasLoad(code)
      ensures !(spilled <= old(spilled)) ==> HasStore(code)
      ensures Spares(old(regAllocatedMap[..]), regAllocatedMap[..])
      ensures Carries(old(Where()), code, Where(), globals)
    {
      hide Lookup, StackSlots.WellFormed, Owner, Carries, Moves, Holds, Accounts, Candidate, HasLoad, HasStore, AllTaken, Valid;
      ghost var before, goal, taken := Where(), Members(operands) * globals, regAllocatedMap[..];
      SparesNothing(taken);
      var all := Members(operands);
      code := [];
      MovesNothing(before);
      MovesCarries(before, [], before, globals);
      for i := 0 to |operands|
        invariant Valid() && temps == {}
        invariant old(reg.Keys + spilled) <= reg.Keys + spilled <= old(reg.Keys + spilled) + goal
        invariant forall j :: 0 <= j < i && (operands[j] in reg.Keys + spilled || operands[j] in globals) ==> operands[j] in reg
        invariant forall v :: v in all && v in spilled ==> v in old(spilled)
        invariant !(old(spilled) <= spilled) ==> HasLoad(code)
        invariant !(spilled <= old(spilled)) ==> HasStore(code)
        invariant Spares(taken, regAllocatedMap[..])
        invariant Carries(before, code, Where(), globals)
      {
        ghost var taken1 := regAllocatedMap[..];
        SparesNothing(taken1);
        var v := operands[i];
        assert forall j :: 0 <= j <= i ==> operands[j] in all;
        ghost var middle := Where();
        var more := [];
        ok := true;
        if v in spilled {
          ok, more := Reload(v, all);
          MovesCarries(middle, more, Where(), globals);
        } else if v in globals && v !in reg {
          ok, more := Acquire(v, all);
          CarriesNews(middle, more, Where(), {v}, globals);
        } else {
          MovesNothing(middle);
          MovesCarries(middle, [], middle, globals);
        }
        SparesThen(taken, taken1, regAllocatedMap[..]);
        CarriesThen(before, code, middle, more, Where(), globals);
        HasBoth(code, more);
        code := code + more;
        if !ok {
          return;
        }
      }
      ok := true;
      forall v | v in operands && v in old(spilled)
        ensures v !in spilled
      {
        if v in spilled {
          SpilledElsewhere(v);
        }
      }
    }

    /** A global gets a register on demand. */
    method Acquire(v: nat, operands: set<nat>) returns (ok: bool, code: seq<Code>)
      requires Valid() && v in liveVars && v !in reg && v !in spilled && v !in allocas && v in operands
      modifies this`reg, this`spilled, this`temps, regAllocatedMap, stack
      ensures Valid() && temps == old(temps)
      ensures ok ==> reg.Keys + spilled == old(reg.Keys + spilled) + {v} && v in reg
      ensures forall u :: u in operands && u in old(reg) ==> u in reg && reg[u] == old(reg)[u]
      ensures old(spilled) <= spilled && forall u :: u in operands && u in spilled ==> u in old(spilled)
      ensures !ok ==> reg == old(reg) && spilled == old(spilled) && code == [] && AllTaken() && forall u :: !Candidate(u, operands)
      ensures !(spilled <= old(spilled)) ==> HasStore(code)
      ensures Spares(old(regAllocatedMap[..]), regAllocatedMap[..])
      ensures Carries(old(Where()), code, Where(), {v})
    {
      hide Lookup, StackSlots.WellFormed, Owner, Free, Moves, Carries, Accounts;
      assert !Holds(stack.slots, v);
      ghost var before := Where();
      var r;
      r, code := AllocateGeneralRegister(operands);
      ghost var middle := Where();
      MovesCarries(before, code, middle, {v});
      ok := r.Some?;
      if ok {
        NewPlace(middle, v, r.value, {v});
        GiveRegister(v, r.value);
        CarriesThen(before, code, middle, [], Where(), {v});
        assert code + [] == code;
      }
    }

    /** Bring a spilled variable back to a register. The operands of the instruction keep theirs. */
    method Reload(v: nat, operands: set<nat>) returns (ok: bool, code: seq<Code>)
      requires Valid() && v in spilled && v in operands
      modifies this`reg, this`spilled, this`temps, regAllocatedMap, stack
      ensures Valid() && temps == old(temps)
      ensures reg.Keys + spilled == old(reg.Keys + spilled)
      ensures ok ==> v in reg && v !in spilled && HasLoad(code)
      ensures forall u :: u in operands && u in old(reg) ==> u in reg && reg[u] == old(reg)[u]
      ensures forall u :: u in operands && u in spilled ==> u in old(spilled)
      ensures !ok ==> reg == old(reg) && v !in reg && spilled == old(spilled) && code == [] && AllTaken() && forall u :: !Candidate(u, operands)
      ensures !(spilled <= old(spilled)) ==> HasStore(code)
      ensures Spares(old(regAllocatedMap[..]), regAllocatedMap[..])
      ensures Moves(old(Where()), code, Where(), 0)
    {
      hide Lookup, StackSlots.WellFormed, Owner, Free, Moves, Holds, Valid, Accounts, HasLoad, HasStore;
      ghost var before := Where();
      assert v !in reg by {
        SpilledElsewhere(v);
      }
      var r;
      r, code := AllocateGeneralRegister(operands);
      if r.None? {
        return false, code;
      }
      ghost var middle := Where();
      var load := LoadBack(v, r.value);
      MovesThen(before, code, middle, load, Where());
      HasBoth(code, load);
      code := code + load;
      ok := true;
    }

    /** Load `v` into the register `r`, and give its slot back. */
    method LoadBack(v: nat, r: nat) returns (code: seq<Code>)
      requires Valid() && v in spilled && r in temps
      modifies this`reg, this`spilled, this`temps, stack
      ensures Valid() && reg == old(reg)[v := r] && spilled == old(spilled) - {v} && temps == old(temps) - {r}
      ensures |code| == if stack.stackSize < old(stack.stackSize) then 2 else 1
      ensures HasLoad(code) && Moves(old(Where()), code, Where(), 0)
    {
      hide Lookup, StackSlots.WellFormed, Owner, Free, Moves, Revoked, Accounts;
      ghost var before, slots := Where(), stack.slots;
      PlacesDistinct();
      GiveTo(regAllocatedMap[..], reg, temps, HasFramePointer(), v, r);
      reg := reg[v := r];
      temps := temps - {r};
      var offset := stack.stackSize - stack.stackpos[v];
      var released := stack.ReleaseOnStackVar(v);
      spilled := spilled - {v};
      RevokedKeeps(slots, stack.slots, spilled, v);
      ReloadMoves(before, Where(), v, r, released);
      code := ReloadCode(r, offset, released);
      assert code[0].Ldr?;
    }

    /** Move `v` from its register to the stack; the register stays taken. The frame grows if it has no room. */
    method Spill(v: nat) returns (grew: bool, r: nat, offset: int)
      requires Valid() && v in reg && v in liveVars
      modifies this`reg, this`spilled, this`temps, stack
      ensures Valid() && r == old(reg)[v]
      ensures reg == old(reg) - {v} && spilled == old(spilled) + {v} && temps == old(temps) + {r}
      ensures forall u :: u != v ==> (Holds(stack.slots, u) <==> Holds(old(stack.slots), u))
      ensures (grew <==> !HasRoom(old(stack.slots))) && stack.stackSize == old(stack.stackSize) + if grew then 8 else 0
      ensures HasRoom(stack.slots) ==> HasRoom(old(stack.slots))
      ensures Moves(old(Where()), SpillCode(grew, r, offset), Where(), 0)
    {
      hide Moves, Distinct, Valid, HasRoom;
      ghost var before := Where();
      PlacesDistinct();
      grew, r := GiveSlot(v);
      PlacesDistinct();
      offset := stack.stackSize - stack.stackpos[v];
      SpillMoves(before, Where(), v, grew);
    }

    method GiveSlot(v: nat) returns (grew: bool, r: nat)
      requires Valid() && v in reg && v in liveVars
      modifies this`reg, this`spilled, this`temps, stack
      ensures Valid() && r == old(reg)[v]
      ensures reg == old(reg) - {v} && spilled == old(spilled) + {v} && temps == old(temps) + {r}
      ensures forall u :: u != v ==> (Holds(stack.slots, u) <==> Holds(old(stack.slots), u))
      ensures (grew <==> !HasRoom(old(stack.slots))) && stack.stackSize == old(stack.stackSize) + if grew then 8 else 0
      ensures HasRoom(stack.slots) ==> HasRoom(old(stack.slots))
      ensures v in stack.stackpos && forall u :: u in old(spilled) ==> u in stack.stackpos && u in old(stack.stackpos) && stack.stackpos[u] == old(stack.stackpos)[u]
    {
      hide Lookup, StackSlots.WellFormed, Owner, Free, Accounts, Granted;
      ghost var slots, kept := stack.slots, spilled;
      TakeFrom(regAllocatedMap[..], reg, temps, HasFramePointer(), v);
      r := reg[v];
      spilled := spilled + {v};
      temps := temps + {r};
      reg := reg - {v};
      grew := stack.SpillVar(v, 8);
      GrantedKeeps(slots, stack.slots, kept, v, stack.stackpos[v] - 8, 8);
      GrantedRoom(slots, stack.slots, v, stack.stackpos[v] - 8);
    }
  }

  function Members(vars: seq<nat>): set<nat> {
    set v | v in vars
  }

  /** More variables may count as new. */
  lemma CarriesNews(s: Places, code: seq<Code>, s': Places, few: set<nat>, news: set<nat>)
    requires few <= news
    ensures Carries(s, code, s', few) ==> Carries(s, code, s', news)
  {
    hide Placed, DoAll;
    if Carries(s, code, s', few) {
      forall m: Machine, base: int, vals: map<nat, int>
        ensures CarriesFrom(s, code, s', news, m, base, vals)
      {
        assert CarriesFrom(s, code, s', few, m, base, vals);
        if Placed(s, m, base, vals, 0) {
          var vals' :| Carried(s', DoAll(code, m), base, vals, vals', few);
          assert Carried(s', DoAll(code, m), base, vals, vals', news);
        }
      }
    }
  }

  /** The first register that a fresh allocator gives away. */
  method FirstRegister(hasFunccall: bool, maxIntegerArgs: nat) returns (r: Option<nat>)
    ensures r == Some(if !hasFunccall then 0 else if maxIntegerArgs < 4 then maxIntegerArgs else 4)
  {
    hide Allocator.Valid;
    var a := new Allocator(hasFunccall, maxIntegerArgs, v => v, {});
    var first := if !hasFunccall then 0 else if maxIntegerArgs < 4 then maxIntegerArgs else 4;
    assert a.Spared(first) && !a.regAllocatedMap[first];
    assert !a.AllTaken();
    r := a.FindFree();
  }

  /**
   Variable 0 is spilled to the frame, array 1 owns the end of the frame, and the interval of
   the array ends: the frame shrinks, no code is emitted, and the next reload of variable 0
   can deliver another value.
   */
  method LateArray() returns (code: seq<Code>, size: nat, size': nat, ghost s: Places, ghost shift: nat)
    ensures code == [] && size' < size && shift == size - size'
    ensures Distinct(s) && 0 in s.spilled && !ReloadsRight(s, 0, 0, 8, shift)
  {
    hide Moves, Forgets, Accounts, StackSlots.WellFormed, Free, ReloadsRight, Allocator.Valid, Distinct, Lookup, Granted;
    var a := new Allocator(false, 0, v => v, {1});
    FillFrame(a);
    size := a.stack.stackSize;
    code, shift := a.Expire(0);
    size' := a.stack.stackSize;
    s := a.Where();
    a.PlacesDistinct();
    ShiftedReload(s, 0, 0, 8, shift);
  }

  /** A value below, and an array above it. */
  method FillFrame(a: Allocator)
    requires a.Valid() && a.liveVars == [] && a.reg == map[] && a.spilled == {} && a.stack.slots == [] && a.allocas == {1}
    modifies a`liveVars, a`spilled, a.stack
    ensures a.Valid() && a.reg == map[] && a.spilled == {0} && a.liveVars == [1, 0]
    ensures a.stack.stackSize > 0 && Owner(a.stack.slots, a.stack.stackSize - 1) == Some(1)
  {
    hide Accounts, StackSlots.WellFormed, Lookup;
    NothingOnStack();
    var grew := a.stack.SpillVar(0, 8);
    ghost var before := a.stack.slots;
    TooSmall(before, 40);
    grew := a.stack.SpillVar(1, 40);
    GrantedKeeps(before, a.stack.slots, {0}, 1, a.stack.stackpos[1] - 40, 40);
    a.spilled, a.liveVars := {0}, [1, 0];
  }

  /**
   All registers are taken, variable 21 is on the stack above room that another one left, and variable 12
   begins to live: a value is stored into the room, the stack pointer is lowered although the frame
   does not grow, and the values are not where they should be.
   */
  method LateVariable() returns (ok: bool, code: seq<Code>, ghost s: Places, ghost s': Places)
    ensures ok && HasStore(code) && Delta(code) == s.stackSize - s'.stackSize - 8
    ensures Distinct(s) && !Carries(s, code, s', {12})
  {
    hide Accounts, StackSlots.WellFormed, Free, Allocator.Valid, Distinct, Lookup, Granted, Carries, HasStore, HasRoom, Allocator.Replaced;
    var a := new Allocator(false, 0, v => v, {});
    FillRegisters(a);
    a.PlacesDistinct();
    s := a.Where();
    assert a.Candidate(0, {12});
    ok, code := a.Begin(12, {12}, {});
    s' := a.Where();
    assert s.spilled == {21} && s.reg == Numbered();
    SomeoneWent(a, s.reg, s.spilled);
  }

  lemma SomeoneWent(a: Allocator, reg: map<nat, nat>, spilled: set<nat>)
    requires a.Replaced(reg, spilled, 12, {12}, {}) && reg.Keys !! spilled
    ensures a.spilled != spilled
  {
  }

  method FillRegisters(a: Allocator)
    requires a.Valid() && a.liveVars == [] && a.reg == map[] && a.spilled == {} && a.temps == {} && a.stack.slots == [] && a.allocas == {}
    requires !a.HasFramePointer()
    modifies a`liveVars, a`reg, a`spilled, a.stack, a.regAllocatedMap
    ensures a.Valid() && a.reg == Numbered() && a.spilled == {21} && a.liveVars == [0, 1, 2, 3, 4, 5, 6, 7, 8, 9, 10, 11, 21] && a.temps == {}
    ensures a.AllTaken() && HasRoom(a.stack.slots)
  {
    hide Accounts, StackSlots.WellFormed, Lookup, Free, HasRoom, Numbered;
    a.AccountedLength();
    TakeAll(a.regAllocatedMap);
    LeaveRoom(a.stack);
    NumberedAccounts(a.regAllocatedMap[..]);
    a.reg, a.spilled, a.liveVars := Numbered(), {21}, [0, 1, 2, 3, 4, 5, 6, 7, 8, 9, 10, 11, 21];
    NumberedKeys();
  }

  method TakeAll(taken: array<bool>)
    modifies taken
    ensures forall j :: 0 <= j < taken.Length ==> taken[j]
  {
    for i := 0 to taken.Length
      invariant forall j :: 0 <= j < i ==> taken[j]
    {
      taken[i] := true;
    }
  }

  lemma NumberedKeys()
    ensures forall v: nat :: v in Numbered() <==> v < 12
  {
  }

  function Numbered(): map<nat, nat> {
    map[0 := 0, 1 := 1, 2 := 2, 3 := 3, 4 := 4, 5 := 5, 6 := 6, 7 := 7, 8 := 8, 9 := 9, 10 := 10, 11 := 11]
  }

  lemma NumberedHolds(j: nat)
    requires j < REGISTERS
    ensures HeldBy(Numbered(), j)
  {
    assert j in Numbered() && Numbered()[j] == j;
  }

  lemma NumberedAccounts(taken: seq<bool>)
    requires |taken| == REGISTERS && forall j :: 0 <= j < REGISTERS ==> taken[j]
    ensures Accounts(taken, Numbered(), {}, false)
  {
    hide HeldBy;
    forall j: nat | j < REGISTERS
      ensures taken[j] && HeldBy(Numbered(), j)
    {
      NumberedHolds(j);
    }
  }

  /** One variable leaves eight bytes below another. */
  method LeaveRoom(stack: Stack)
    requires stack.Valid() && stack.slots == []
    modifies stack
    ensures stack.Valid() && HasRoom(stack.slots)
    ensures forall u :: Holds(stack.slots, u) <==> u == 21
    ensures 21 in stack.stackpos && stack.stackpos[21] == Lookup(stack.slots, 21)
  {
    NothingOnStack();
    assert stack.stackSize == 0 && Total([]) == 0;
    TooSmall([], 8);
    hide StackSlots.WellFormed, Lookup, Owner, Total;
    var grew := stack.SpillVar(20, 8);
    ghost var before := stack.slots;
    assert Owner(before, 0) == Some(20) && Owner(before, 7) == Some(20);
    grew := stack.SpillVar(21, 8);
    ghost var full := stack.slots;
    assert Owner(full, 0) == Some(20) && Owner(full, 15) == Some(21);
    var released := stack.ReleaseOnStackVar(20);
    RevokedKeeps(full, stack.slots, {21}, 20);
    assert Free(stack.slots, 0, 8);
  }

  lemma TooSmall(slots: seq<Slot>, size: nat)
    requires Total(slots) < size
    ensures forall p: nat :: !Free(slots, p, size)
  {
  }

  lemma NothingOnStack()
    ensures forall v :: !Holds([], v)
  {
  }

  /** The first `k` of `vars` have been looked at, and `live` has what is left of them up to `i`. */
  ghost predicate Swept(vars: seq<nat>, k: nat, live: seq<nat>, i: nat, gone: set<nat>, liveEnd: nat -> nat, cur: nat) {
    && k <= |vars| && i <= |live|
    && live == Unexpired(vars[..k], liveEnd, cur) + vars[k..]
    && i == |Unexpired(vars[..k], liveEnd, cur)|
    && gone == Expired(vars[..k], liveEnd, cur)
  }

  lemma SweepStarts(vars: seq<nat>, liveEnd: nat -> nat, cur: nat)
    ensures Swept(vars, 0, vars, 0, {}, liveEnd, cur)
  {
    assert vars[..0] == [];
  }

  lemma SweepEnds(vars: seq<nat>, k: nat, live: seq<nat>, i: nat, gone: set<nat>, liveEnd: nat -> nat, cur: nat)
    requires Swept(vars, k, live, i, gone, liveEnd, cur) && i >= |live|
    ensures live == Unexpired(vars, liveEnd, cur) && gone == Expired(vars, liveEnd, cur)
  {
    assert vars[..k] == vars;
  }

  lemma SweepStep(vars: seq<nat>, k: nat, live: seq<nat>, i: nat, gone: set<nat>, liveEnd: nat -> nat, cur: nat, allocas: set<nat>)
    requires Swept(vars, k, live, i, gone, liveEnd, cur) && i < |live|
    ensures var v, next := live[i], k + 1;
            if liveEnd(v) <= cur then Swept(vars, next, live[..i] + live[i + 1..], i, gone + {v}, liveEnd, cur)
            else Swept(vars, next, live, i + 1, gone, liveEnd, cur)
    ensures Quiet(gone + {live[i]}, allocas) ==> Quiet(gone, allocas) && live[i] !in allocas
  {
    var kept := Unexpired(vars[..k], liveEnd, cur);
    assert vars[..k + 1] == vars[..k] + [vars[k]];
    assert vars[..k + 1][..k] == vars[..k];
    assert vars[k..] == [vars[k]] + vars[k + 1..];
    assert live[i] == vars[k];
    assert live[..i] + live[i + 1..] == kept + vars[k + 1..];
  }

  lemma GrantedKeeps(a: seq<Slot>, b: seq<Slot>, kept: set<nat>, v: nat, p: nat, size: nat)
    requires StackSlots.WellFormed(a) && StackSlots.WellFormed(b) && Granted(a, b, v, p, size)
    requires forall u :: u in kept ==> Holds(a, u) && Holds(b, u) && u != v
    ensures forall u :: u in kept ==> Lookup(a, u) == Lookup(b, u)
  {
    hide StackSlots.WellFormed, Lookup, Holds, Owner;
    forall u, x: nat | u in kept
      ensures Owner(a, x) == Some(u) <==> Owner(b, x) == Some(u)
    {
    }
    StayOnStack(a, b, kept, v);
  }

  lemma GrantedRoom(a: seq<Slot>, b: seq<Slot>, v: nat, p: nat)
    requires Granted(a, b, v, p, 8) && (Total(b) == Total(a) || Total(b) == Total(a) + 8 == p + 8)
    ensures HasRoom(b) ==> HasRoom(a)
  {
    hide Owner, Total;
    if HasRoom(b) {
      var q: nat :| Free(b, q, 8);
      assert forall x: nat :: q <= x < q + 8 ==> Owner(b, x) == None;
      assert Owner(b, q + 7) == None;
      assert Free(a, q, 8);
    }
  }

  lemma RevokedKeeps(a: seq<Slot>, b: seq<Slot>, kept: set<nat>, v: nat)
    requires StackSlots.WellFormed(a) && StackSlots.WellFormed(b) && Revoked(a, b, v)
    requires forall u :: u in kept ==> Holds(a, u) && Holds(b, u) && u != v
    ensures forall u :: u in kept ==> Lookup(a, u) == Lookup(b, u)
  {
    hide StackSlots.WellFormed, Lookup, Holds, Owner;
    forall u, x: nat | u in kept
      ensures Owner(a, x) == Some(u) <==> Owner(b, x) == Some(u)
    {
      assert Owner(b, x) == if Owner(a, x) == Some(v) then None else Owner(a, x);
    }
    StayOnStack(a, b, kept, v);
  }

  lemma StayOnStack(a: seq<Slot>, b: seq<Slot>, kept: set<nat>, v: nat)
    requires StackSlots.WellFormed(a) && StackSlots.WellFormed(b)
    requires forall u :: u in kept ==> Holds(a, u) && Holds(b, u) && u != v
    requires forall u, x: nat :: u in kept ==> (Owner(a, x) == Some(u) <==> Owner(b, x) == Some(u))
    ensures forall u :: u in kept ==> Lookup(a, u) == Lookup(b, u)
  {
    forall u | u in kept
      ensures Lookup(a, u) == Lookup(b, u)
    {
      LookupByOwners(a, b, u);
    }
  }
}
