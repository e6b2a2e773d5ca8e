/**
 The in-block part of promotion: a load after a store to the same variable is
 replaced by the stored operand everywhere, loads nobody uses go away, and a store
 overwritten before the end of the block goes away.
 */
module InBlockForwarding {

  datatype Operand = Reg(r: nat) | Imm(c: int)

  /** `Op` is every instruction other than a load or store of a promotable variable. */
  datatype Ins = Store(v: nat, src: Operand) | Load(dst: nat, v: nat) | Op(dst: nat, args: seq<Operand>)

  function Slots(ins: Ins): seq<Operand> {
    match ins
    case Store(_, src) => [src]
    case Load(_, _) => []
    case Op(_, args) => args
  }

  predicate Assigns(ins: Ins, r: nat) {
    (ins.Load? || ins.Op?) && ins.dst == r
  }

  // ---- runs ----

  /** Registers, promotable memory, and the operand values seen so far by the other instructions. */
  datatype State = State(regs: map<nat, int>, mem: map<nat, int>, trace: seq<seq<int>>)

  ghost function Read(m: map<nat, int>, k: nat): int {
    if k in m then m[k] else 0
  }

  ghost function Value(o: Operand, regs: map<nat, int>): int {
    match o
    case Reg(r) => Read(regs, r)
    case Imm(c) => c
  }

  ghost function Values(args: seq<Operand>, regs: map<nat, int>): (r: seq<int>)
    ensures |r| == |args| && forall k :: 0 <= k < |args| ==> r[k] == Value(args[k], regs)
  {
    if args == [] then [] else Values(args[..|args| - 1], regs) + [Value(args[|args| - 1], regs)]
  }

  /** The result of an `Op` may depend on everything observed so far, its own operands included. */
  type Effect = seq<seq<int>> -> int

  ghost function Step(ins: Ins, st: State, f: Effect): State {
    match ins
    case Store(v, src) => st.(mem := st.mem[v := Value(src, st.regs)])
    case Load(dst, v) => st.(regs := st.regs[dst := Read(st.mem, v)])
    case Op(dst, args) =>
      var trace := st.trace + [Values(args, st.regs)];
      st.(trace := trace, regs := st.regs[dst := f(trace)])
  }

  /** Run the instructions before position `i` that are not removed. */
  ghost function Exec(code: seq<Ins>, removed: set<nat>, i: nat, st: State, f: Effect): State
    requires i <= |code|
  {
    if i == 0 then st
    else
      var before := Exec(code, removed, i - 1, st, f);
      if i - 1 in removed then before else Step(code[i - 1], before, f)
  }

  /** Single assignment, and operands are assigned before they are used. */
  ghost predicate SingleAssignment(code: seq<Ins>) {
    && (forall j: nat, k: nat, r: nat :: j < |code| && k < |code| && Assigns(code[j], r) && Assigns(code[k], r) ==> j == k)
    && UsesAfter(code, code, {})
  }

  /** Operands of the live instructions of `code` that `code0` assigns are assigned earlier. */
  ghost predicate UsesAfter(code0: seq<Ins>, code: seq<Ins>, removed: set<nat>) {
    |code| == |code0| && forall j: nat, k: nat, r: nat ::
      j < |code| && k < |code| && k !in removed && Assigns(code0[j], r) && Reg(r) in Slots(code[k]) ==> j < k
  }

  // ---- the rewriting ----

  function Subst(o: Operand, r: nat, x: Operand): Operand {
    if o == Reg(r) then x else o
  }

  function SubstAll(args: seq<Operand>, r: nat, x: Operand): (s: seq<Operand>)
    ensures |s| == |args| && forall k :: 0 <= k < |args| ==> s[k] == Subst(args[k], r, x)
  {
    seq(|args|, k requires 0 <= k < |args| => Subst(args[k], r, x))
  }

  function SubstIns(ins: Ins, r: nat, x: Operand): (s: Ins)
    ensures Slots(s) == SubstAll(Slots(ins), r, x)
    ensures forall q: nat :: Assigns(s, q) <==> Assigns(ins, q)
  {
    match ins
    case Store(v, src) => Store(v, Subst(src, r, x))
    case Load(_, _) => ins
    case Op(dst, args) => Op(dst, SubstAll(args, r, x))
  }

  /** Reset every use of register `r` in the live instructions to `x`. */
  function ReplaceUses(code: seq<Ins>, removed: set<nat>, r: nat, x: Operand): (s: seq<Ins>)
    ensures |s| == |code|
    ensures forall k: nat :: k < |code| ==> s[k] == if k in removed then code[k] else SubstIns(code[k], r, x)
  {
    seq(|code|, k requires 0 <= k < |code| => if k in removed then code[k] else SubstIns(code[k], r, x))
  }

  /** Register `r` has a use in a live instruction of the block or in a slot outside. */
  predicate HasUses(code: seq<Ins>, removed: set<nat>, ext: seq<Operand>, r: nat) {
    Reg(r) in ext || exists k :: 0 <= k < |code| && k !in removed && Reg(r) in Slots(code[k])
  }

  ghost predicate SameShape(x: Ins, y: Ins) {
    match x
    case Store(v, _) => y.Store? && y.v == v
    case Load(_, _) => y == x
    case Op(dst, args) => y.Op? && y.dst == dst && |y.args| == |args|
  }

  ghost predicate AssignedFrom(code: seq<Ins>, i: nat, q: nat) {
    exists k: nat :: i <= k < |code| && Assigns(code[k], q)
  }

  /** Slots `x` and `y` mention the same one of the registers that are still to be assigned. */
  ghost predicate Linked(code0: seq<Ins>, i: nat, x: Operand, y: Operand) {
    forall q: nat :: AssignedFrom(code0, i, q) ==> (x == Reg(q) <==> y == Reg(q))
  }

  ghost predicate AllLinked(code0: seq<Ins>, i: nat, s: seq<Operand>, t: seq<Operand>) {
    |s| == |t| && forall k :: 0 <= k < |s| ==> Linked(code0, i, s[k], t[k])
  }

  ghost predicate SameValues(s: seq<Operand>, t: seq<Operand>, a: map<nat, int>, b: map<nat, int>) {
    |s| == |t| && forall k :: 0 <= k < |s| ==> Value(s[k], a) == Value(t[k], b)
  }

  /** The table of latest stores: each is live, and no live access to its variable follows before `i`. */
  ghost predicate DefTable(code: seq<Ins>, removed: set<nat>, def: map<nat, nat>, i: nat) {
    forall v: nat :: v in def ==>
      && def[v] < i <= |code| && def[v] !in removed
      && code[def[v]].Store? && code[def[v]].v == v
      && forall k: nat :: def[v] < k < i && k !in removed ==> !Touches(code[k], v)
  }

  predicate Touches(ins: Ins, v: nat) {
    (ins.Store? || ins.Load?) && ins.v == v
  }

  /** What the pass keeps about the code itself. */
  ghost predicate Structure(code0: seq<Ins>, ext0: seq<Operand>, code: seq<Ins>, removed: set<nat>, ext: seq<Operand>, def: map<nat, nat>, i: nat) {
    && i <= |code| == |code0|
    && (forall k :: k in removed ==> k < i)
    && UsesAfter(code0, code, removed)
    && (forall k: nat :: k < |code| ==> SameShape(code0[k], code[k]))
    && (forall k: nat :: i <= k < |code| ==> AllLinked(code0, i, Slots(code0[k]), Slots(code[k])))
    && AllLinked(code0, i, ext0, ext)
    && DefTable(code, removed, def, i)
  }

  /** What the pass keeps about every run up to position `i`. */
  ghost predicate Simulates(code0: seq<Ins>, ext0: seq<Operand>, code: seq<Ins>, removed: set<nat>, ext: seq<Operand>, def: map<nat, nat>, i: nat,
                            st: State, f: Effect)
    requires i <= |code| == |code0|
  {
    var a, b := Exec(code0, {}, i, st, f), Exec(code, removed, i, st, f);
    && a.trace == b.trace
    && a.mem == b.mem
    && SlotsAgree(code0, ext0, code, ext, i, a.regs, b.regs)
    && StoredInMemory(code, def, b)
  }

  /** The slots of the instructions from `i` on, and those outside, read the same values. */
  ghost predicate SlotsAgree(code0: seq<Ins>, ext0: seq<Operand>, code: seq<Ins>, ext: seq<Operand>, i: nat, a: map<nat, int>, b: map<nat, int>) {
    && |code| == |code0|
    && (forall k: nat :: i <= k < |code| ==> SameValues(Slots(code0[k]), Slots(code[k]), a, b))
    && SameValues(ext0, ext, a, b)
  }

  /** Memory holds what the latest store of every variable stored. */
  ghost predicate StoredInMemory(code: seq<Ins>, def: map<nat, nat>, b: State) {
    forall v: nat :: v in def ==>
      def[v] < |code| && code[def[v]].Store? && v in b.mem && b.mem[v] == Value(code[def[v]].src, b.regs)
  }

  // ---- one instruction at a time ----

  lemma LinkedLater(code0: seq<Ins>, i: nat, s: seq<Operand>, t: seq<Operand>)
    requires AllLinked(code0, i, s, t)
    ensures AllLinked(code0, i + 1, s, t)
  {
    forall k, q: nat | 0 <= k < |s| && AssignedFrom(code0, i + 1, q)
      ensures s[k] == Reg(q) <==> t[k] == Reg(q)
    {
      assert AssignedFrom(code0, i, q);
      assert Linked(code0, i, s[k], t[k]);
    }
  }

  /** Assigning register `q`, still linked, the same value on both sides keeps the slots in agreement. */
  lemma AssignBoth(code0: seq<Ins>, i: nat, s: seq<Operand>, t: seq<Operand>, a: map<nat, int>, b: map<nat, int>, q: nat, x: int)
    requires AllLinked(code0, i, s, t) && SameValues(s, t, a, b) && AssignedFrom(code0, i, q)
    ensures SameValues(s, t, a[q := x], b[q := x])
  {
    forall k | 0 <= k < |s|
      ensures Value(s[k], a[q := x]) == Value(t[k], b[q := x])
    {
      assert Linked(code0, i, s[k], t[k]);
    }
  }

  lemma SameArguments(s: seq<Operand>, t: seq<Operand>, a: map<nat, int>, b: map<nat, int>)
    requires SameValues(s, t, a, b)
    ensures Values(s, a) == Values(t, b)
  {
  }

  /** The stored operand of a live table entry is settled: no register assigned from `i` on occurs in it. */
  lemma StoredIsSettled(code0: seq<Ins>, ext0: seq<Operand>, code: seq<Ins>, removed: set<nat>, ext: seq<Operand>, def: map<nat, nat>, i: nat, v: nat, q: nat)
    requires Structure(code0, ext0, code, removed, ext, def, i) && v in def && AssignedFrom(code0, i, q)
    ensures code[def[v]].src != Reg(q)
  {
    var k: nat :| i <= k < |code0| && Assigns(code0[k], q);
    assert code[def[v]].src in Slots(code[def[v]]);
  }

  /** Structure at the next position, when instruction `i` stays and the table follows suit. */
  lemma StructureSteps(code0: seq<Ins>, ext0: seq<Operand>, code: seq<Ins>, removed: set<nat>, ext: seq<Operand>, def: map<nat, nat>, i: nat,
                       removed': set<nat>, def': map<nat, nat>)
    requires Structure(code0, ext0, code, removed, ext, def, i) && i < |code|
    requires removed <= removed' && (forall k :: k in removed' ==> k <= i)
    requires DefTable(code, removed', def', i + 1)
    ensures Structure(code0, ext0, code, removed', ext, def', i + 1)
  {
    forall k: nat | i + 1 <= k < |code|
      ensures AllLinked(code0, i + 1, Slots(code0[k]), Slots(code[k]))
    {
      LinkedLater(code0, i, Slots(code0[k]), Slots(code[k]));
    }
    LinkedLater(code0, i, ext0, ext);
  }

  lemma AssignEverywhere(code0: seq<Ins>, ext0: seq<Operand>, code: seq<Ins>, removed: set<nat>, ext: seq<Operand>, def: map<nat, nat>, i: nat,
                         a: map<nat, int>, b: map<nat, int>, q: nat, x: int)
    requires Structure(code0, ext0, code, removed, ext, def, i) && AssignedFrom(code0, i, q)
    requires SlotsAgree(code0, ext0, code, ext, i, a, b)
    ensures SlotsAgree(code0, ext0, code, ext, i + 1, a[q := x], b[q := x])
  {
    forall k: nat | i + 1 <= k < |code|
      ensures SameValues(Slots(code0[k]), Slots(code[k]), a[q := x], b[q := x])
    {
      AssignBoth(code0, i, Slots(code0[k]), Slots(code[k]), a, b, q, x);
    }
    AssignBoth(code0, i, ext0, ext, a, b, q, x);
  }

  lemma StoredStays(code0: seq<Ins>, ext0: seq<Operand>, code: seq<Ins>, removed: set<nat>, ext: seq<Operand>, def: map<nat, nat>, i: nat,
                    b: State, q: nat, b': State)
    requires Structure(code0, ext0, code, removed, ext, def, i) && AssignedFrom(code0, i, q)
    requires StoredInMemory(code, def, b) && b'.mem == b.mem && q in b'.regs && b'.regs == b.regs[q := b'.regs[q]]
    ensures StoredInMemory(code, def, b')
  {
    forall v: nat | v in def
      ensures b'.mem[v] == Value(code[def[v]].src, b'.regs)
    {
      StoredIsSettled(code0, ext0, code, removed, ext, def, i, v, q);
    }
  }

  lemma TableGrows(code: seq<Ins>, removed: set<nat>, def: map<nat, nat>, i: nat)
    requires DefTable(code, removed, def, i) && i < |code| && !(code[i].Store? || (code[i].Load? && code[i].v in def))
    ensures DefTable(code, removed, def, i + 1)
  {
  }

  /** An `Op`, or a load of a variable the block has not stored yet, stays. */
  lemma KeepStep(code0: seq<Ins>, ext0: seq<Operand>, code: seq<Ins>, removed: set<nat>, ext: seq<Operand>, def: map<nat, nat>, i: nat,
                 st: State, f: Effect)
    requires Structure(code0, ext0, code, removed, ext, def, i) && i < |code| && i !in removed
    requires code[i].Op? || (code[i].Load? && code[i].v !in def)
    requires Simulates(code0, ext0, code, removed, ext, def, i, st, f)
    ensures Simulates(code0, ext0, code, removed, ext, def, i + 1, st, f)
  {
    assert SameShape(code0[i], code[i]);
    var q := code0[i].dst;
    assert Assigns(code0[i], q) && AssignedFrom(code0, i, q);
    hide Structure;
    var a, b := Exec(code0, {}, i, st, f), Exec(code, removed, i, st, f);
    if code[i].Op? {
      SameArguments(Slots(code0[i]), Slots(code[i]), a.regs, b.regs);
    }
    hide SlotsAgree, StoredInMemory;
    var a', b' := Exec(code0, {}, i + 1, st, f), Exec(code, removed, i + 1, st, f);
    assert a' == Step(code0[i], a, f) && b' == Step(code[i], b, f);
    var x := a'.regs[q];
    assert a'.regs == a.regs[q := x] && b'.regs == b.regs[q := x];
    AssignEverywhere(code0, ext0, code, removed, ext, def, i, a.regs, b.regs, q, x);
    StoredStays(code0, ext0, code, removed, ext, def, i, b, q, b');
  }

  /** A load without uses goes away. */
  lemma UnusedLoadStep(code0: seq<Ins>, ext0: seq<Operand>, code: seq<Ins>, removed: set<nat>, ext: seq<Operand>, def: map<nat, nat>, i: nat,
                       st: State, f: Effect)
    requires Structure(code0, ext0, code, removed, ext, def, i) && i < |code| && i !in removed
    requires code[i].Load? && !HasUses(code, removed, ext, code[i].dst)
    requires Simulates(code0, ext0, code, removed, ext, def, i, st, f)
    ensures Simulates(code0, ext0, code, removed + {i}, ext, def, i + 1, st, f)
  {
    RemovedLater(code, removed, i, i, st, f);
    var a, b := Exec(code0, {}, i, st, f), Exec(code, removed, i, st, f);
    assert SameShape(code0[i], code[i]);
    var q := code[i].dst;
    assert Assigns(code0[i], q) && AssignedFrom(code0, i, q);
    forall k: nat | i + 1 <= k < |code|
      ensures SameValues(Slots(code0[k]), Slots(code[k]), a.regs[q := Read(a.mem, code[i].v)], b.regs)
    {
      assert Reg(q) !in Slots(code[k]);
      AssignUnused(code0, i, Slots(code0[k]), Slots(code[k]), a.regs, b.regs, q, Read(a.mem, code[i].v));
    }
    AssignUnused(code0, i, ext0, ext, a.regs, b.regs, q, Read(a.mem, code[i].v));
  }

  lemma AssignUnused(code0: seq<Ins>, i: nat, s: seq<Operand>, t: seq<Operand>, a: map<nat, int>, b: map<nat, int>, q: nat, x: int)
    requires AllLinked(code0, i, s, t) && SameValues(s, t, a, b) && AssignedFrom(code0, i, q) && Reg(q) !in t
    ensures SameValues(s, t, a[q := x], b)
  {
    forall k | 0 <= k < |s|
      ensures Value(s[k], a[q := x]) == Value(t[k], b)
    {
      assert Linked(code0, i, s[k], t[k]);
    }
  }

  /** Removing an instruction does not change what ran before it. */
  lemma RemovedLater(code: seq<Ins>, removed: set<nat>, j: nat, i: nat, st: State, f: Effect)
    requires i <= j && i <= |code|
    ensures Exec(code, removed + {j}, i, st, f) == Exec(code, removed, i, st, f)
  {
    if i > 0 {
      RemovedLater(code, removed, j, i - 1, st, f);
    }
  }

  // ---- stores ----

  ghost predicate EqualOff(m: map<nat, int>, m': map<nat, int>, v: nat) {
    m[v := 0] == m'[v := 0]
  }

  /** Without live accesses to `v` in between, a store to `v` only changes the memory cell of `v`. */
  lemma DropStore(code: seq<Ins>, removed: set<nat>, j: nat, v: nat, i: nat, st: State, f: Effect)
    requires j < i <= |code| && j !in removed && code[j].Store? && code[j].v == v
    requires forall k: nat :: j < k < i && k !in removed ==> !Touches(code[k], v)
    ensures var x, y := Exec(code, removed, i, st, f), Exec(code, removed + {j}, i, st, f);
            x.regs == y.regs && x.trace == y.trace && EqualOff(x.mem, y.mem, v)
  {
    if i == j + 1 {
      RemovedLater(code, removed, j, j, st, f);
    } else {
      DropStore(code, removed, j, v, i - 1, st, f);
      if i - 1 !in removed {
        var x, y := Exec(code, removed, i - 1, st, f), Exec(code, removed + {j}, i - 1, st, f);
        assert !Touches(code[i - 1], v);
        if code[i - 1].Load? {
          ReadOff(x.mem, y.mem, v, code[i - 1].v);
        } else if code[i - 1].Store? {
          WriteOff(x.mem, y.mem, v, code[i - 1].v, Value(code[i - 1].src, x.regs));
        }
      }
    }
  }

  lemma ReadOff(m: map<nat, int>, m': map<nat, int>, v: nat, u: nat)
    requires EqualOff(m, m', v) && u != v
    ensures Read(m, u) == Read(m', u)
  {
    assert Read(m[v := 0], u) == Read(m'[v := 0], u);
  }

  lemma WriteOff(m: map<nat, int>, m': map<nat, int>, v: nat, u: nat, x: int)
    requires EqualOff(m, m', v) && u != v
    ensures EqualOff(m[u := x], m'[u := x], v)
  {
    assert m[u := x][v := 0] == m[v := 0][u := x];
    assert m'[u := x][v := 0] == m'[v := 0][u := x];
  }

  lemma OverwriteOff(m: map<nat, int>, m': map<nat, int>, v: nat, x: int)
    requires EqualOff(m, m', v)
    ensures m[v := x] == m'[v := x]
  {
    assert m[v := x] == m[v := 0][v := x];
    assert m'[v := x] == m'[v := 0][v := x];
  }

  ghost function Without(removed: set<nat>, def: map<nat, nat>, v: nat): set<nat> {
    if v in def then removed + {def[v]} else removed
  }

  lemma TableStores(code: seq<Ins>, removed: set<nat>, def: map<nat, nat>, i: nat)
    requires DefTable(code, removed, def, i) && i < |code| && i !in removed && code[i].Store?
    ensures DefTable(code, Without(removed, def, code[i].v), def[code[i].v := i], i + 1)
  {
  }

  /** A store becomes the latest one of its variable; the previous one goes away. */
  lemma StoreStep(code0: seq<Ins>, ext0: seq<Operand>, code: seq<Ins>, removed: set<nat>, ext: seq<Operand>, def: map<nat, nat>, i: nat,
                  st: State, f: Effect)
    requires Structure(code0, ext0, code, removed, ext, def, i) && i < |code| && i !in removed && code[i].Store?
    requires Simulates(code0, ext0, code, removed, ext, def, i, st, f)
    ensures Simulates(code0, ext0, code, Without(removed, def, code[i].v), ext, def[code[i].v := i], i + 1, st, f)
  {
    var v := code[i].v;
    var removed', def' := Without(removed, def, v), def[v := i];
    var a, b := Exec(code0, {}, i, st, f), Exec(code, removed, i, st, f);
    var b' := Exec(code, removed', i, st, f);
    assert SameShape(code0[i], code[i]);
    assert b'.regs == b.regs && b'.trace == b.trace && EqualOff(b.mem, b'.mem, v) by {
      if v in def {
        DropStore(code, removed, def[v], v, i, st, f);
      }
    }
    assert i !in removed';
    hide Structure;
    var x := Value(code[i].src, b.regs);
    OverwriteOff(b.mem, b'.mem, v, x);
    assert Slots(code0[i])[0] == code0[i].src && Slots(code[i])[0] == code[i].src;
    assert Value(code0[i].src, a.regs) == x;
    var b'' := Exec(code, removed', i + 1, st, f);
    assert b'' == Step(code[i], b', f) && b''.mem == b.mem[v := x];
    assert Exec(code0, {}, i + 1, st, f) == Step(code0[i], a, f);
  }

  // ---- forwarding ----

  /** Code up to and including the load is not affected by resetting the uses of its register. */
  lemma PrefixUnchanged(code0: seq<Ins>, code: seq<Ins>, removed: set<nat>, i: nat, r: nat, x: Operand)
    requires UsesAfter(code0, code, removed) && i < |code| && Assigns(code0[i], r)
    ensures forall k: nat :: k <= i ==> k in removed || ReplaceUses(code, removed, r, x)[k] == code[k]
  {
    forall k: nat | k <= i && k !in removed
      ensures SubstIns(code[k], r, x) == code[k]
    {
      assert Reg(r) !in Slots(code[k]);
      assert forall m :: 0 <= m < |Slots(code[k])| ==> Slots(code[k])[m] != Reg(r);
      if code[k].Op? {
        assert SubstAll(code[k].args, r, x) == code[k].args;
      } else if code[k].Store? {
        assert Slots(code[k])[0] == code[k].src;
      }
    }
  }

  lemma ExecSamePrefix(code: seq<Ins>, code': seq<Ins>, removed: set<nat>, i: nat, st: State, f: Effect)
    requires i <= |code| == |code'| && forall k: nat :: k < i ==> k in removed || code'[k] == code[k]
    ensures Exec(code', removed, i, st, f) == Exec(code, removed, i, st, f)
  {
    if i > 0 {
      ExecSamePrefix(code, code', removed, i - 1, st, f);
    }
  }

  /** Resetting linked uses of the loaded register to an operand of the same value keeps link and agreement. */
  lemma ForwardSlots(code0: seq<Ins>, i: nat, s: seq<Operand>, t: seq<Operand>, a: map<nat, int>, b: map<nat, int>, q: nat, x: Operand, y: int)
    requires AllLinked(code0, i, s, t) && SameValues(s, t, a, b) && AssignedFrom(code0, i, q) && Value(x, b) == y
    ensures SameValues(s, SubstAll(t, q, x), a[q := y], b)
  {
    forall k | 0 <= k < |s|
      ensures Value(s[k], a[q := y]) == Value(SubstAll(t, q, x)[k], b)
    {
      assert Linked(code0, i, s[k], t[k]);
    }
  }

  lemma ForwardLinks(code0: seq<Ins>, i: nat, s: seq<Operand>, t: seq<Operand>, q: nat, x: Operand)
    requires AllLinked(code0, i, s, t) && i < |code0| && Assigns(code0[i], q) && SingleAssignment(code0)
    requires forall p: nat :: AssignedFrom(code0, i, p) ==> x != Reg(p)
    ensures AllLinked(code0, i + 1, s, SubstAll(t, q, x))
  {
    assert AssignedFrom(code0, i, q);
    forall k, p: nat | 0 <= k < |s| && AssignedFrom(code0, i + 1, p)
      ensures s[k] == Reg(p) <==> SubstAll(t, q, x)[k] == Reg(p)
    {
      var m: nat :| i + 1 <= m < |code0| && Assigns(code0[m], p);
      assert p != q && AssignedFrom(code0, i, p);
      assert Linked(code0, i, s[k], t[k]);
    }
  }

  ghost predicate Forwards(code0: seq<Ins>, ext0: seq<Operand>, code: seq<Ins>, removed: set<nat>, ext: seq<Operand>, def: map<nat, nat>, i: nat) {
    && SingleAssignment(code0)
    && Structure(code0, ext0, code, removed, ext, def, i)
    && i < |code| && i !in removed
    && code[i].Load? && code[i].v in def
  }

  lemma ForwardStructure(code0: seq<Ins>, ext0: seq<Operand>, code: seq<Ins>, removed: set<nat>, ext: seq<Operand>, def: map<nat, nat>, i: nat)
    requires Forwards(code0, ext0, code, removed, ext, def, i)
    ensures var q, x := code[i].dst, code[def[code[i].v]].src;
            Structure(code0, ext0, ReplaceUses(code, removed, q, x), removed + {i}, SubstAll(ext, q, x), def, i + 1)
  {
    var q, j := code[i].dst, def[code[i].v];
    var x := code[j].src;
    var code' := ReplaceUses(code, removed, q, x);
    assert SameShape(code0[i], code[i]) && Assigns(code0[i], q);
    ForwardAllLinks(code0, ext0, code, removed, ext, def, i);
    ForwardUses(code0, code, removed, i, j, q);
    PrefixUnchanged(code0, code, removed, i, q, x);
    TableForwards(code, code', removed, def, i);
    forall k: nat | k < |code|
      ensures SameShape(code0[k], code'[k])
    {
      assert SameShape(code0[k], code[k]);
    }
  }

  lemma ForwardAllLinks(code0: seq<Ins>, ext0: seq<Operand>, code: seq<Ins>, removed: set<nat>, ext: seq<Operand>, def: map<nat, nat>, i: nat)
    requires Forwards(code0, ext0, code, removed, ext, def, i)
    ensures var q, x := code[i].dst, code[def[code[i].v]].src;
            && (forall k: nat :: i + 1 <= k < |code| ==> AllLinked(code0, i + 1, Slots(code0[k]), Slots(ReplaceUses(code, removed, q, x)[k])))
            && AllLinked(code0, i + 1, ext0, SubstAll(ext, q, x))
  {
    var q, x := code[i].dst, code[def[code[i].v]].src;
    var code' := ReplaceUses(code, removed, q, x);
    assert SameShape(code0[i], code[i]) && Assigns(code0[i], q);
    forall p: nat | AssignedFrom(code0, i, p)
      ensures x != Reg(p)
    {
      StoredIsSettled(code0, ext0, code, removed, ext, def, i, code[i].v, p);
    }
    forall k: nat | i + 1 <= k < |code|
      ensures AllLinked(code0, i + 1, Slots(code0[k]), Slots(code'[k]))
    {
      ForwardLinks(code0, i, Slots(code0[k]), Slots(code[k]), q, x);
    }
    ForwardLinks(code0, i, ext0, ext, q, x);
  }

  lemma TableForwards(code: seq<Ins>, code': seq<Ins>, removed: set<nat>, def: map<nat, nat>, i: nat)
    requires DefTable(code, removed, def, i) && i < |code| == |code'|
    requires forall k: nat :: k <= i ==> k in removed || code'[k] == code[k]
    ensures DefTable(code', removed + {i}, def, i + 1)
  {
  }

  lemma ForwardUses(code0: seq<Ins>, code: seq<Ins>, removed: set<nat>, i: nat, j: nat, q: nat)
    requires UsesAfter(code0, code, removed) && j < i < |code| && j !in removed && code[j].Store? && Assigns(code0[i], q)
    ensures UsesAfter(code0, ReplaceUses(code, removed, q, code[j].src), removed + {i})
  {
    var code' := ReplaceUses(code, removed, q, code[j].src);
    forall m: nat, k: nat, r: nat | m < |code| && k < |code| && k !in removed + {i} && Assigns(code0[m], r) && Reg(r) in Slots(code'[k])
      ensures m < k
    {
      ForwardedUse(code0, code, removed, i, j, q, m, k, r);
    }
  }

  lemma ForwardedUse(code0: seq<Ins>, code: seq<Ins>, removed: set<nat>, i: nat, j: nat, q: nat, m: nat, k: nat, r: nat)
    requires UsesAfter(code0, code, removed) && j < i < |code| && j !in removed && code[j].Store? && Assigns(code0[i], q)
    requires m < |code| && k < |code| && k !in removed + {i} && Assigns(code0[m], r)
    requires Reg(r) in Slots(ReplaceUses(code, removed, q, code[j].src)[k])
    ensures m < k
  {
    var x := code[j].src;
    var s := Slots(code[k]);
    var p :| 0 <= p < |s| && SubstAll(s, q, x)[p] == Reg(r);
    assert s[p] in s;
    if s[p] == Reg(q) {
      assert Slots(code[j])[0] == x;
    }
  }

  /** A load after a store in the block is replaced by the stored operand. */
  lemma ForwardStep(code0: seq<Ins>, ext0: seq<Operand>, code: seq<Ins>, removed: set<nat>, ext: seq<Operand>, def: map<nat, nat>, i: nat,
                    st: State, f: Effect)
    requires Forwards(code0, ext0, code, removed, ext, def, i)
    requires Simulates(code0, ext0, code, removed, ext, def, i, st, f)
    ensures var q, x := code[i].dst, code[def[code[i].v]].src;
            && Structure(code0, ext0, ReplaceUses(code, removed, q, x), removed + {i}, SubstAll(ext, q, x), def, i + 1)
            && Simulates(code0, ext0, ReplaceUses(code, removed, q, x), removed + {i}, SubstAll(ext, q, x), def, i + 1, st, f)
  {
    ForwardStructure(code0, ext0, code, removed, ext, def, i);
    var v, q := code[i].v, code[i].dst;
    var x := code[def[v]].src;
    var code' := ReplaceUses(code, removed, q, x);
    assert SameShape(code0[i], code[i]) && Assigns(code0[i], q) && AssignedFrom(code0, i, q);
    PrefixUnchanged(code0, code, removed, i, q, x);
    ExecSamePrefix(code, code', removed, i, st, f);
    RemovedLater(code', removed, i, i, st, f);
    var a, b := Exec(code0, {}, i, st, f), Exec(code, removed, i, st, f);
    assert Exec(code', removed + {i}, i + 1, st, f) == b;
    forall k: nat | i + 1 <= k < |code|
      ensures SameValues(Slots(code0[k]), Slots(code'[k]), a.regs[q := Read(a.mem, v)], b.regs)
    {
      ForwardSlots(code0, i, Slots(code0[k]), Slots(code[k]), a.regs, b.regs, q, x, Read(a.mem, v));
    }
    ForwardSlots(code0, i, ext0, ext, a.regs, b.regs, q, x, Read(a.mem, v));
  }

  // ---- the pass over one block ----

  ghost predicate Preserves(code0: seq<Ins>, ext0: seq<Operand>, code: seq<Ins>, removed: set<nat>, ext: seq<Operand>, def: map<nat, nat>, i: nat) {
    && Structure(code0, ext0, code, removed, ext, def, i)
    && forall st: State, f: Effect :: Simulates(code0, ext0, code, removed, ext, def, i, st, f)
  }

  lemma KeepAll(code0: seq<Ins>, ext0: seq<Operand>, code: seq<Ins>, removed: set<nat>, ext: seq<Operand>, def: map<nat, nat>, i: nat)
    requires Preserves(code0, ext0, code, removed, ext, def, i) && i < |code|
    requires code[i].Op? || (code[i].Load? && code[i].v !in def)
    ensures Preserves(code0, ext0, code, removed, ext, def, i + 1)
  {
    assert i !in removed;
    TableGrows(code, removed, def, i);
    StructureSteps(code0, ext0, code, removed, ext, def, i, removed, def);
    var next := i + 1;
    forall st: State, f: Effect
      ensures Simulates(code0, ext0, code, removed, ext, def, next, st, f)
    {
      KeepStep(code0, ext0, code, removed, ext, def, i, st, f);
    }
  }

  lemma UnusedAll(code0: seq<Ins>, ext0: seq<Operand>, code: seq<Ins>, removed: set<nat>, ext: seq<Operand>, def: map<nat, nat>, i: nat)
    requires Preserves(code0, ext0, code, removed, ext, def, i) && i < |code|
    requires code[i].Load? && !HasUses(code, removed, ext, code[i].dst)
    ensures Preserves(code0, ext0, code, removed + {i}, ext, def, i + 1)
  {
    assert i !in removed;
    assert DefTable(code, removed + {i}, def, i + 1);
    StructureSteps(code0, ext0, code, removed, ext, def, i, removed + {i}, def);
    var next, gone := i + 1, removed + {i};
    forall st: State, f: Effect
      ensures Simulates(code0, ext0, code, gone, ext, def, next, st, f)
    {
      UnusedLoadStep(code0, ext0, code, removed, ext, def, i, st, f);
    }
  }

  lemma StoreAll(code0: seq<Ins>, ext0: seq<Operand>, code: seq<Ins>, removed: set<nat>, ext: seq<Operand>, def: map<nat, nat>, i: nat)
    requires Preserves(code0, ext0, code, removed, ext, def, i) && i < |code| && code[i].Store?
    ensures Preserves(code0, ext0, code, Without(removed, def, code[i].v), ext, def[code[i].v := i], i + 1)
  {
    assert i !in removed;
    TableStores(code, removed, def, i);
    StructureSteps(code0, ext0, code, removed, ext, def, i, Without(removed, def, code[i].v), def[code[i].v := i]);
    var next, gone, latest := i + 1, Without(removed, def, code[i].v), def[code[i].v := i];
    forall st: State, f: Effect
      ensures Simulates(code0, ext0, code, gone, ext, latest, next, st, f)
    {
      StoreStep(code0, ext0, code, removed, ext, def, i, st, f);
    }
  }

  lemma ForwardsHere(code0: seq<Ins>, ext0: seq<Operand>, code: seq<Ins>, removed: set<nat>, ext: seq<Operand>, def: map<nat, nat>, i: nat)
    requires SingleAssignment(code0) && Structure(code0, ext0, code, removed, ext, def, i) && i < |code|
    requires code[i].Load? && code[i].v in def
    ensures def[code[i].v] < |code| && code[def[code[i].v]].Store?
    ensures Forwards(code0, ext0, code, removed, ext, def, i)
  {
    assert i !in removed;
  }

  lemma ForwardAll(code0: seq<Ins>, ext0: seq<Operand>, code: seq<Ins>, removed: set<nat>, ext: seq<Operand>, def: map<nat, nat>, i: nat)
    requires SingleAssignment(code0) && Preserves(code0, ext0, code, removed, ext, def, i) && i < |code|
    requires code[i].Load? && code[i].v in def
    ensures def[code[i].v] < |code| && code[def[code[i].v]].Store?
    ensures var q, x := code[i].dst, code[def[code[i].v]].src;
            Preserves(code0, ext0, ReplaceUses(code, removed, q, x), removed + {i}, SubstAll(ext, q, x), def, i + 1)
  {
    ForwardsHere(code0, ext0, code, removed, ext, def, i);
    hide Structure, Simulates, SingleAssignment, Forwards;
    var q, x := code[i].dst, code[def[code[i].v]].src;
    ForwardStructure(code0, ext0, code, removed, ext, def, i);
    var next, gone, code', ext' := i + 1, removed + {i}, ReplaceUses(code, removed, q, x), SubstAll(ext, q, x);
    forall st: State, f: Effect
      ensures Simulates(code0, ext0, code', gone, ext', def, next, st, f)
    {
      ForwardStep(code0, ext0, code, removed, ext, def, i, st, f);
    }
  }

  // ---- which instructions go ----

  predicate StoresTo(ins: Ins, v: nat) {
    ins.Store? && ins.v == v
  }

  ghost predicate StoredBefore(code0: seq<Ins>, k: nat, v: nat) {
    exists j: nat :: j < k && j < |code0| && StoresTo(code0[j], v)
  }

  ghost predicate StoredAfter(code0: seq<Ins>, k: nat, v: nat) {
    exists j: nat :: k < j < |code0| && StoresTo(code0[j], v)
  }

  /** Some instruction of the block, or a slot outside, has the register as an operand. */
  ghost predicate Used(code0: seq<Ins>, ext0: seq<Operand>, r: nat) {
    Reg(r) in ext0 || exists k :: 0 <= k < |code0| && Reg(r) in Slots(code0[k])
  }

  /** A load nobody uses, a load after a store of the variable, or a store before another one. */
  ghost predicate Superfluous(code0: seq<Ins>, ext0: seq<Operand>, k: nat)
    requires k < |code0|
  {
    match code0[k]
    case Op(_, _) => false
    case Store(v, _) => StoredAfter(code0, k, v)
    case Load(dst, v) => !Used(code0, ext0, dst) || StoredBefore(code0, k, v)
  }

  /** The same for the first `i` instructions; the table has the last store of every variable. */
  ghost predicate RemovedSoFar(code0: seq<Ins>, ext0: seq<Operand>, removed: set<nat>, def: map<nat, nat>, i: nat) {
    && i <= |code0| && (forall k :: k in removed ==> k < i)
    && (forall v :: v in def ==> def[v] < i && StoresTo(code0[def[v]], v))
    && (forall j: nat, v: nat :: j < i && StoresTo(code0[j], v) ==> v in def && j <= def[v])
    && (forall k: nat :: k < i ==> (k in removed <==> GoneSoFar(code0, ext0, def, k)))
  }

  ghost predicate GoneSoFar(code0: seq<Ins>, ext0: seq<Operand>, def: map<nat, nat>, k: nat)
    requires k < |code0|
  {
    match code0[k]
    case Op(_, _) => false
    case Store(v, _) => v in def && def[v] != k
    case Load(dst, v) => !Used(code0, ext0, dst) || StoredBefore(code0, k, v)
  }

  /** Whether the result of a load is used does not change before the load is met. */
  lemma UsedAsBefore(code0: seq<Ins>, ext0: seq<Operand>, code: seq<Ins>, removed: set<nat>, ext: seq<Operand>, def: map<nat, nat>, i: nat)
    requires SingleAssignment(code0) && Structure(code0, ext0, code, removed, ext, def, i) && i < |code| && code[i].Load?
    ensures HasUses(code, removed, ext, code[i].dst) <==> Used(code0, ext0, code[i].dst)
  {
    var q := code[i].dst;
    assert SameShape(code0[i], code[i]) && Assigns(code0[i], q) && AssignedFrom(code0, i, q);
    LinkedMention(code0, i, ext0, ext, q);
    forall k: nat | i < k < |code|
      ensures Reg(q) in Slots(code0[k]) <==> Reg(q) in Slots(code[k])
    {
      LinkedMention(code0, i, Slots(code0[k]), Slots(code[k]), q);
    }
    forall k: nat | k < |code|
      ensures Reg(q) in Slots(code0[k]) ==> i < k
      ensures k !in removed && Reg(q) in Slots(code[k]) ==> i < k
    {
    }
  }

  lemma LinkedMention(code0: seq<Ins>, i: nat, s: seq<Operand>, t: seq<Operand>, q: nat)
    requires AllLinked(code0, i, s, t) && AssignedFrom(code0, i, q)
    ensures Reg(q) in s <==> Reg(q) in t
  {
    if Reg(q) in s {
      var k :| 0 <= k < |s| && s[k] == Reg(q);
      assert Linked(code0, i, s[k], t[k]);
    }
    if Reg(q) in t {
      var k :| 0 <= k < |t| && t[k] == Reg(q);
      assert Linked(code0, i, s[k], t[k]);
    }
  }

  lemma StoreExact(code0: seq<Ins>, ext0: seq<Operand>, removed: set<nat>, def: map<nat, nat>, i: nat)
    requires RemovedSoFar(code0, ext0, removed, def, i) && i < |code0| && code0[i].Store?
    ensures RemovedSoFar(code0, ext0, Without(removed, def, code0[i].v), def[code0[i].v := i], i + 1)
  {
    var v, next := code0[i].v, i + 1;
    forall k: nat | k < next
      ensures k in Without(removed, def, v) <==> GoneSoFar(code0, ext0, def[v := i], k)
    {
      assert k < i ==> (k in removed <==> GoneSoFar(code0, ext0, def, k));
    }
  }

  lemma OtherExact(code0: seq<Ins>, ext0: seq<Operand>, removed: set<nat>, def: map<nat, nat>, i: nat, gone: bool)
    requires RemovedSoFar(code0, ext0, removed, def, i) && i < |code0| && !code0[i].Store?
    requires gone <==> code0[i].Load? && (!Used(code0, ext0, code0[i].dst) || code0[i].v in def)
    ensures RemovedSoFar(code0, ext0, if gone then removed + {i} else removed, def, i + 1)
  {
    var next, after := i + 1, if gone then removed + {i} else removed;
    if code0[i].Load? {
      assert code0[i].v in def <==> StoredBefore(code0, i, code0[i].v);
    }
    forall k: nat | k < next
      ensures k in after <==> GoneSoFar(code0, ext0, def, k)
    {
      assert k < i ==> (k in removed <==> GoneSoFar(code0, ext0, def, k));
    }
  }

  lemma AllExact(code0: seq<Ins>, ext0: seq<Operand>, removed: set<nat>, def: map<nat, nat>)
    requires RemovedSoFar(code0, ext0, removed, def, |code0|)
    ensures forall k: nat :: k in removed <==> k < |code0| && Superfluous(code0, ext0, k)
  {
    forall k: nat | k < |code0|
      ensures k in removed <==> Superfluous(code0, ext0, k)
    {
      if code0[k].Store? {
        var v := code0[k].v;
        assert StoresTo(code0[k], v);
        assert StoresTo(code0[def[v]], v);
      }
    }
  }

  /**
   The in-block pass, in place: operands are reset and instructions removed while the
   block is walked. For every initial state and every behaviour of the other
   instructions, these see the same operand values, the promotable memory ends up
   the same, and the slots outside the block read the same values. One store per
   variable is left, and no load after a store. What goes is stated in terms of the block as it was: stores
   before another store of the variable, loads after a store of theirs, and loads nobody uses.
   */
  method SimplifyBlock(code0: seq<Ins>, ext0: seq<Operand>) returns (code: seq<Ins>, removed: set<nat>, ext: seq<Operand>)
    requires SingleAssignment(code0)
    ensures |code| == |code0| && |ext| == |ext0| && forall k: nat :: k < |code| ==> SameShape(code0[k], code[k])
    ensures forall st: State, f: Effect :: SameOutcome(code0, ext0, code, removed, ext, st, f)
    ensures Minimal(code, removed)
    ensures forall k: nat :: k in removed <==> k < |code0| && Superfluous(code0, ext0, k)
  {
    hide Preserves, Exec, SameShape, HasUses, Superfluous, RemovedSoFar, SingleAssignment, Used;
    code, removed, ext := code0, {}, ext0;
    var def: map<nat, nat> := map[];
    var i := 0;
    StartStructure(code0, ext0);
    NothingRemoved(code0, ext0);
    while i < |code|
      invariant |code| == |code0| && Preserves(code0, ext0, code, removed, ext, def, i)
      invariant Tidy(code, removed, def, i) && RemovedSoFar(code0, ext0, removed, def, i)
    {
      LoadUsed(code0, ext0, code, removed, ext, def, i);
      match code[i] {
        case Store(v, _) =>
          StoreAll(code0, ext0, code, removed, ext, def, i);
          TidyStore(code, removed, def, i);
          StoreExact(code0, ext0, removed, def, i);
          if v in def {
            removed := removed + {def[v]};
          }
          def := def[v := i];
        case Load(dst, v) =>
          OtherExact(code0, ext0, removed, def, i, !HasUses(code, removed, ext, dst) || v in def);
          if !HasUses(code, removed, ext, dst) {
            UnusedAll(code0, ext0, code, removed, ext, def, i);
            removed := removed + {i};
          } else if v in def {
            ForwardAll(code0, ext0, code, removed, ext, def, i);
            var x := code[def[v]].src;
            code, ext := ReplaceUses(code, removed, dst, x), SubstAll(ext, dst, x);
            removed := removed + {i};
          } else {
            KeepAll(code0, ext0, code, removed, ext, def, i);
          }
        case Op(_, _) =>
          OtherExact(code0, ext0, removed, def, i, false);
          KeepAll(code0, ext0, code, removed, ext, def, i);
      }
      i := i + 1;
    }
    AllExact(code0, ext0, removed, def);
    Conclude(code0, ext0, code, removed, ext, def);
  }

  lemma NothingRemoved(code0: seq<Ins>, ext0: seq<Operand>)
    ensures RemovedSoFar(code0, ext0, {}, map[], 0)
  {
  }

  /** Kinds of instructions are those of the block as it was, and so is the use of a load. */
  lemma LoadUsed(code0: seq<Ins>, ext0: seq<Operand>, code: seq<Ins>, removed: set<nat>, ext: seq<Operand>, def: map<nat, nat>, i: nat)
    requires SingleAssignment(code0) && Preserves(code0, ext0, code, removed, ext, def, i) && i < |code| == |code0|
    ensures code[i].Store? ==> code0[i].Store? && code0[i].v == code[i].v
    ensures code[i].Load? ==> code0[i] == code[i] && (HasUses(code, removed, ext, code[i].dst) <==> Used(code0, ext0, code[i].dst))
    ensures code[i].Op? ==> code0[i].Op?
  {
    assert SameShape(code0[i], code[i]);
    hide HasUses, Used, SingleAssignment;
    if code[i].Load? {
      UsedAsBefore(code0, ext0, code, removed, ext, def, i);
    }
  }

  lemma StartStructure(code0: seq<Ins>, ext0: seq<Operand>)
    requires SingleAssignment(code0)
    ensures Preserves(code0, ext0, code0, {}, ext0, map[], 0)
  {
  }

  lemma Conclude(code0: seq<Ins>, ext0: seq<Operand>, code: seq<Ins>, removed: set<nat>, ext: seq<Operand>, def: map<nat, nat>)
    requires |code| == |code0| && Preserves(code0, ext0, code, removed, ext, def, |code|)
    ensures |ext| == |ext0| && forall k: nat :: k < |code| ==> SameShape(code0[k], code[k])
    ensures forall st: State, f: Effect :: SameOutcome(code0, ext0, code, removed, ext, st, f)
  {
    forall st: State, f: Effect
      ensures SameOutcome(code0, ext0, code, removed, ext, st, f)
    {
      assert Simulates(code0, ext0, code, removed, ext, def, |code|, st, f);
    }
  }

  /** Both versions of the block observe the same, leave the same memory, and feed the slots outside the same. */
  ghost predicate SameOutcome(code0: seq<Ins>, ext0: seq<Operand>, code: seq<Ins>, removed: set<nat>, ext: seq<Operand>, st: State, f: Effect) {
    var a, b := Exec(code0, {}, |code0|, st, f), Exec(code, removed, |code|, st, f);
    a.trace == b.trace && a.mem == b.mem && SameValues(ext0, ext, a.regs, b.regs)
  }

  /** Before `i`, live stores are those in the table, and no live load follows a live store of its variable. */
  ghost predicate Tidy(code: seq<Ins>, removed: set<nat>, def: map<nat, nat>, i: nat) {
    && i <= |code|
    && (forall k: nat :: k < i && k !in removed && code[k].Store? ==> code[k].v in def && def[code[k].v] == k)
    && (forall v: nat, k: nat :: v in def && def[v] < k < i && k !in removed && code[k].Load? ==> code[k].v != v)
  }

  ghost predicate Minimal(code: seq<Ins>, removed: set<nat>) {
    forall j: nat, k: nat :: j < k < |code| && j !in removed && k !in removed && code[j].Store? && (code[k].Store? || code[k].Load?) ==>
      code[j].v != code[k].v
  }

  lemma TidyStore(code: seq<Ins>, removed: set<nat>, def: map<nat, nat>, i: nat)
    requires Tidy(code, removed, def, i) && i < |code| && code[i].Store?
    ensures Tidy(code, Without(removed, def, code[i].v), def[code[i].v := i], i + 1)
  {
  }
}
