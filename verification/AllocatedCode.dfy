/**
 Straight-line code under register allocation. Every instruction finds the values of its
 operands in registers, as if there were a register for every variable, however often
 values are spilled and reloaded in between.
 */
module AllocatedCode {
  import opened Options
  import opened RegisterAllocator

  // ---- what the instructions mean ----

  /**
   An instruction reads its operands, needs registers for globals, has perhaps a result, and uses
   some temporary registers. `compute(args, k)` is what it leaves in the `k`-th register it writes:
   first the result, then the globals, then the temporaries. A store gives the register of
   its global back.
   */
  datatype Op = Op(operands: seq<nat>, globals: seq<nat>, result: Option<nat>, temps: nat, drops: Option<nat>, compute: (seq<int>, nat) -> int)

  function Results(op: Op): seq<nat> {
    if op.result.Some? then [op.result.value] else []
  }

  /** The variables that the instruction writes. */
  function Defs(op: Op): seq<nat> {
    Results(op) + op.globals
  }

  /** The variables that must be in registers at the same time. */
  function Needs(op: Op): seq<nat> {
    op.operands + Defs(op)
  }

  /** Variables with their values, and the operand values that the instructions have seen. */
  datatype Ideal = Ideal(vals: map<nat, int>, trace: seq<seq<int>>)

  function Arguments(operands: seq<nat>, vals: map<nat, int>): (r: seq<int>)
    ensures |r| == |operands| && forall k :: 0 <= k < |r| ==> r[k] == RegValue(vals, operands[k])
  {
    seq(|operands|, k requires 0 <= k < |operands| => RegValue(vals, operands[k]))
  }

  /** Write `compute(args, k)` to the `k`-th of `keys`, in this order. */
  function Assign(m: map<nat, int>, keys: seq<nat>, args: seq<int>, compute: (seq<int>, nat) -> int): map<nat, int> {
    if keys == [] then m
    else
      var n: nat := |keys| - 1;
      Assign(m, keys[..n], args, compute)[keys[n] := compute(args, n)]
  }

  function Perform(op: Op, i: Ideal): Ideal {
    var args := Arguments(op.operands, i.vals);
    Ideal(Assign(i.vals, Defs(op), args, op.compute), i.trace + [args])
  }

  function PerformAll(ops: seq<Op>, i: Ideal): Ideal {
    if ops == [] then i else Perform(ops[|ops| - 1], PerformAll(ops[..|ops| - 1], i))
  }

  // ---- what is emitted ----

  /** Code that moves values around, or the instruction itself, on registers. */
  datatype Item = Support(code: Code) | Operate(sources: seq<nat>, targets: seq<nat>, compute: (seq<int>, nat) -> int)

  datatype Observed = Observed(machine: Machine, trace: seq<seq<int>>)

  function RunItem(i: Item, o: Observed): Observed {
    match i
    case Support(code) => o.(machine := Do(code, o.machine))
    case Operate(sources, targets, compute) =>
      var args := Arguments(sources, o.machine.regs);
      Observed(o.machine.(regs := Assign(o.machine.regs, targets, args, compute)), o.trace + [args])
  }

  function RunItems(items: seq<Item>, o: Observed): Observed {
    if items == [] then o else RunItem(items[|items| - 1], RunItems(items[..|items| - 1], o))
  }

  lemma {:induction false} RunItemsSum(a: seq<Item>, b: seq<Item>, o: Observed)
    ensures RunItems(a + b, o) == RunItems(b, RunItems(a, o))
  {
    if b == [] {
      assert a + b == a;
    } else {
      assert (a + b)[..|a + b| - 1] == a + b[..|b| - 1];
      RunItemsSum(a, b[..|b| - 1], o);
    }
  }

  function Supporting(code: seq<Code>): (r: seq<Item>)
    ensures |r| == |code| && forall k :: 0 <= k < |code| ==> r[k] == Support(code[k])
  {
    seq(|code|, k requires 0 <= k < |code| => Support(code[k]))
  }

  lemma {:induction false} SupportRuns(code: seq<Code>, o: Observed)
    ensures RunItems(Supporting(code), o) == o.(machine := DoAll(code, o.machine))
  {
    if code != [] {
      var n := |code| - 1;
      assert Supporting(code)[..n] == Supporting(code[..n]);
      SupportRuns(code[..n], o);
      assert code == code[..n] + [code[n]];
      DoSum(code[..n], [code[n]], o.machine);
      DoOne(code[n], DoAll(code[..n], o.machine));
    }
  }

  ghost predicate Stores(items: seq<Item>) {
    exists k :: 0 <= k < |items| && items[k].Support? && items[k].code.Str?
  }

  ghost predicate Loads(items: seq<Item>) {
    exists k :: 0 <= k < |items| && items[k].Support? && items[k].code.Ldr?
  }

  lemma SupportHas(code: seq<Code>)
    ensures HasStore(code) ==> Stores(Supporting(code))
    ensures HasLoad(code) ==> Loads(Supporting(code))
  {
    if HasStore(code) {
      var k :| 0 <= k < |code| && code[k].Str?;
      assert Supporting(code)[k].code.Str?;
    }
    if HasLoad(code) {
      var k :| 0 <= k < |code| && code[k].Ldr?;
      assert Supporting(code)[k].code.Ldr?;
    }
  }

  lemma SumHas(a: seq<Item>, b: seq<Item>)
    ensures Stores(a) || Stores(b) ==> Stores(a + b)
    ensures Loads(a) || Loads(b) ==> Loads(a + b)
  {
    if Stores(a) {
      var k :| 0 <= k < |a| && a[k].Support? && a[k].code.Str?;
      assert (a + b)[k].code.Str?;
    }
    if Stores(b) {
      var k :| 0 <= k < |b| && b[k].Support? && b[k].code.Str?;
      assert (a + b)[|a| + k].code.Str?;
    }
    if Loads(a) {
      var k :| 0 <= k < |a| && a[k].Support? && a[k].code.Ldr?;
      assert (a + b)[k].code.Ldr?;
    }
    if Loads(b) {
      var k :| 0 <= k < |b| && b[k].Support? && b[k].code.Ldr?;
      assert (a + b)[|a| + k].code.Ldr?;
    }
  }

  // ---- agreement ----

  ghost predicate Agrees(s: Places, o: Observed, base: int, i: Ideal) {
    Placed(s, o.machine, base, i.vals, 0) && o.trace == i.trace
  }

  /** Whatever the values are, the emitted items do to them what the instructions do. */
  ghost predicate Simulates(s: Places, items: seq<Item>, s': Places, ops: seq<Op>) {
    forall o: Observed, base: int, i: Ideal :: SimulatesFrom(s, items, s', ops, o, base, i)
  }

  ghost predicate SimulatesFrom(s: Places, items: seq<Item>, s': Places, ops: seq<Op>, o: Observed, base: int, i: Ideal) {
    Agrees(s, o, base, i) ==> Agrees(s', RunItems(items, o), base, PerformAll(ops, i))
  }

  lemma SimulatesNothing(s: Places)
    ensures Simulates(s, [], s, [])
  {
  }

  lemma SimulatesThen(s: Places, a: seq<Item>, s': Places, x: seq<Op>, b: seq<Item>, s'': Places, op: Op)
    requires Simulates(s, a, s', x) && Simulates(s', b, s'', [op])
    ensures Simulates(s, a + b, s'', x + [op])
  {
    forall o: Observed, base: int, i: Ideal
      ensures SimulatesFrom(s, a + b, s'', x + [op], o, base, i)
    {
      hide Agrees;
      RunItemsSum(a, b, o);
      var i' := PerformAll(x, i);
      assert (x + [op])[..|x|] == x;
      assert [op][..0] == [];
      assert PerformAll([op], i') == Perform(op, PerformAll([], i'));
      assert (x + [op])[|x|] == op && PerformAll(x + [op], i) == Perform(op, i');
      hide RunItems, PerformAll;
      assert SimulatesFrom(s, a, s', x, o, base, i);
      assert SimulatesFrom(s', b, s'', [op], RunItems(a, o), base, i');
    }
  }

  // ---- one instruction ----

  /** Everything that the instruction needs is in registers. */
  ghost predicate InRegisters(s: Places, op: Op) {
    forall k :: 0 <= k < |Needs(op)| ==> Needs(op)[k] in s.reg
  }

  /** Registers that no variable has. */
  ghost predicate Spare(s: Places, temps: seq<nat>) {
    forall k, v :: 0 <= k < |temps| && v in s.reg ==> s.reg[v] != temps[k]
  }

  function RegsOf(reg: map<nat, nat>, vars: seq<nat>): (r: seq<nat>)
    requires forall k :: 0 <= k < |vars| ==> vars[k] in reg
    ensures |r| == |vars| && forall k :: 0 <= k < |vars| ==> r[k] == reg[vars[k]]
  {
    seq(|vars|, k requires 0 <= k < |vars| => reg[vars[k]])
  }

  function Operation(reg: map<nat, nat>, op: Op, temps: seq<nat>): Item
    requires forall k :: 0 <= k < |Needs(op)| ==> Needs(op)[k] in reg
  {
    var n := |op.operands|;
    assert forall k :: 0 <= k < n ==> op.operands[k] == Needs(op)[k];
    assert forall k :: 0 <= k < |Defs(op)| ==> Defs(op)[k] == Needs(op)[n + k];
    Operate(RegsOf(reg, op.operands), RegsOf(reg, Defs(op)) + temps, op.compute)
  }

  /** Writing registers of variables assigns the variables; writing spare registers does nothing to them. */
  lemma {:induction false} AssignAgrees(s: Places, vars: seq<nat>, targets: seq<nat>, m: Machine, base: int, vals: map<nat, int>, args: seq<int>,
                                        compute: (seq<int>, nat) -> int)
    requires Distinct(s) && Placed(s, m, base, vals, 0) && |vars| <= |targets|
    requires forall k :: 0 <= k < |vars| ==> vars[k] in s.reg && targets[k] == s.reg[vars[k]]
    requires forall k, v :: |vars| <= k < |targets| && v in s.reg ==> s.reg[v] != targets[k]
    ensures Placed(s, m.(regs := Assign(m.regs, targets, args, compute)), base, Assign(vals, vars, args, compute), 0)
    decreases |targets|
  {
    hide Placed, Distinct;
    if targets == [] {
      assert m.(regs := m.regs) == m;
    } else {
      var n: nat, all := |targets| - 1, |vars| == |targets|;
      var before, x := if all then vars[..n] else vars, compute(args, n);
      AssignAgrees(s, before, targets[..n], m, base, vals, args, compute);
      var m', vals' := m.(regs := Assign(m.regs, targets[..n], args, compute)), Assign(vals, before, args, compute);
      assert m.(regs := Assign(m.regs, targets, args, compute)) == m'.(regs := m'.regs[targets[n] := x]);
      if all {
        ResultWritten(s, m', base, vals', vars[n], x);
      } else {
        SpareWritten(s, m', base, vals', targets[n], x);
      }
    }
  }

  lemma SpareWritten(s: Places, m: Machine, base: int, vals: map<nat, int>, r: nat, x: int)
    requires Placed(s, m, base, vals, 0) && forall v :: v in s.reg ==> s.reg[v] != r
    ensures Placed(s, m.(regs := m.regs[r := x]), base, vals, 0)
  {
  }

  /** Where the assignments go, what was there before does not matter. */
  lemma {:induction false} AssignForgets(a: map<nat, int>, b: map<nat, int>, keys: seq<nat>, args: seq<int>, compute: (seq<int>, nat) -> int, off: set<nat>)
    requires EqualOff(a, b, off)
    ensures EqualOff(Assign(a, keys, args, compute), Assign(b, keys, args, compute), off - Members(keys))
  {
    if keys != [] {
      var n := |keys| - 1;
      AssignForgets(a, b, keys[..n], args, compute, off);
      assert Members(keys) == Members(keys[..n]) + {keys[n]};
    }
  }

  lemma EqualOffNothing(a: map<nat, int>, b: map<nat, int>)
    requires EqualOff(a, b, {})
    ensures a == b
  {
  }

  /** What was in the places of the variables that the instruction writes does not matter. */
  lemma SamePerformance(op: Op, i: Ideal, vals: map<nat, int>)
    requires EqualOff(i.vals, vals, Members(Defs(op))) && forall v :: v in op.operands ==> v !in Defs(op)
    ensures Perform(op, i.(vals := vals)) == Perform(op, i)
  {
    var args := Arguments(op.operands, i.vals);
    assert Arguments(op.operands, vals) == args;
    AssignForgets(i.vals, vals, Defs(op), args, op.compute, Members(Defs(op)));
    EqualOffNothing(Assign(i.vals, Defs(op), args, op.compute), Assign(vals, Defs(op), args, op.compute));
  }

  lemma OperateAgrees(s: Places, op: Op, temps: seq<nat>, o: Observed, base: int, i: Ideal)
    requires Distinct(s) && InRegisters(s, op) && Spare(s, temps) && Agrees(s, o, base, i)
    ensures Agrees(s, RunItem(Operation(s.reg, op, temps), o), base, Perform(op, i))
  {
    var item := Operation(s.reg, op, temps);
    var args := Arguments(op.operands, i.vals);
    assert forall k :: 0 <= k < |op.operands| ==> op.operands[k] == Needs(op)[k];
    assert forall k :: 0 <= k < |Defs(op)| ==> Defs(op)[k] == Needs(op)[|op.operands| + k];
    assert Arguments(item.sources, o.machine.regs) == args;
    AssignAgrees(s, Defs(op), item.targets, o.machine, base, i.vals, args, op.compute);
  }

  /** Room for what the instruction writes, its operands in registers, the instruction, and the end of variables. */
  lemma OneInstruction(s: Places, prepare: seq<Code>, s1: Places, temps: seq<nat>, release: seq<Code>, s2: Places, op: Op)
    requires Carries(s, prepare, s1, Members(Defs(op))) && Distinct(s1) && InRegisters(s1, op) && Spare(s1, temps) && Forgets(s1, release, s2, 0)
    requires forall v :: v in op.operands ==> v !in Defs(op)
    ensures Simulates(s, Supporting(prepare) + [Operation(s1.reg, op, temps)] + Supporting(release), s2, [op])
  {
    var items := Supporting(prepare) + [Operation(s1.reg, op, temps)] + Supporting(release);
    forall o: Observed, base: int, i: Ideal
      ensures SimulatesFrom(s, items, s2, [op], o, base, i)
    {
      if Agrees(s, o, base, i) {
        OneRun(s, prepare, s1, temps, release, s2, op, o, base, i);
      }
    }
  }

  lemma OneRun(s: Places, prepare: seq<Code>, s1: Places, temps: seq<nat>, release: seq<Code>, s2: Places, op: Op, o: Observed, base: int, i: Ideal)
    requires Carries(s, prepare, s1, Members(Defs(op))) && Distinct(s1) && InRegisters(s1, op) && Spare(s1, temps) && Forgets(s1, release, s2, 0)
    requires (forall v :: v in op.operands ==> v !in Defs(op)) && Agrees(s, o, base, i)
    ensures Agrees(s2, RunItems(Supporting(prepare) + [Operation(s1.reg, op, temps)] + Supporting(release), o), base, PerformAll([op], i))
  {
    hide Placed, Distinct, DoAll, Operation, Spare, Perform, EqualOff;
    var item := Operation(s1.reg, op, temps);
    RunItemsSum(Supporting(prepare) + [item], Supporting(release), o);
    RunItemsSum(Supporting(prepare), [item], o);
    SupportRuns(prepare, o);
    assert [item][..0] == [] && [op][..0] == [];
    assert CarriesFrom(s, prepare, s1, Members(Defs(op)), o.machine, base, i.vals);
    var o1 := o.(machine := DoAll(prepare, o.machine));
    var vals :| Carried(s1, o1.machine, base, i.vals, vals, Members(Defs(op)));
    SamePerformance(op, i, vals);
    OperateAgrees(s1, op, temps, o1, base, i.(vals := vals));
    var o2 := RunItem(item, o1);
    SupportRuns(release, o2);
    assert ForgetsFrom(s1, release, s2, 0, o2.machine, base, Perform(op, i).vals, 0);
  }

  // ---- how far the items move the stack pointer ----

  function Displacement(items: seq<Item>): int {
    if items == [] then 0
    else
      var last := items[|items| - 1];
      Displacement(items[..|items| - 1]) + if last.Support? then Delta([last.code]) else 0
  }

  lemma {:induction false} DisplacementSum(a: seq<Item>, b: seq<Item>)
    ensures Displacement(a + b) == Displacement(a) + Displacement(b)
  {
    if b == [] {
      assert a + b == a;
    } else {
      assert (a + b)[..|a + b| - 1] == a + b[..|b| - 1];
      DisplacementSum(a, b[..|b| - 1]);
    }
  }

  lemma {:induction false} SupportDisplaces(code: seq<Code>)
    ensures Displacement(Supporting(code)) == Delta(code)
  {
    if code != [] {
      var n := |code| - 1;
      assert Supporting(code)[..n] == Supporting(code[..n]);
      SupportDisplaces(code[..n]);
      assert code == code[..n] + [code[n]];
      DeltaSum(code[..n], [code[n]]);
    }
  }

  lemma {:induction false} RunDisplaces(items: seq<Item>, o: Observed)
    ensures RunItems(items, o).machine.sp == o.machine.sp + Displacement(items)
  {
    if items != [] {
      var n := |items| - 1;
      RunDisplaces(items[..n], o);
      if items[n].Support? {
        DeltaMoves([items[n].code], RunItems(items[..n], o).machine);
        DoOne(items[n].code, RunItems(items[..n], o).machine);
      }
    }
  }

  /** Items that do what the instructions do leave the stack pointer where the frame size says. */
  lemma SimulatesDisplaces(s: Places, items: seq<Item>, s': Places, ops: seq<Op>)
    requires Distinct(s) && Simulates(s, items, s', ops)
    ensures Displacement(items) == s.stackSize - s'.stackSize
  {
    hide Distinct, Displacement, RunItems, PerformAll;
    var m, vals := Zeros(s);
    var o, i := Observed(m, []), Ideal(vals, []);
    assert SimulatesFrom(s, items, s', ops, o, 0, i);
    RunDisplaces(items, o);
  }

  /**
   The items do what the instructions do, if the stack pointer does not fall behind: `lost` is by how much. What
   goes to the stack is stored.
   */
  ghost predicate Compiled(s: Places, items: seq<Item>, s': Places, ops: seq<Op>, lost: nat) {
    && (lost == 0 ==> Simulates(s, items, s', ops))
    && Displacement(items) == s.stackSize - s'.stackSize - lost
    && (s'.spilled <= s.spilled || Stores(items))
  }

  lemma CompiledNothing(s: Places)
    ensures Compiled(s, [], s, [], 0)
  {
    SimulatesNothing(s);
  }

  lemma CompiledThen(s: Places, a: seq<Item>, s': Places, ops: seq<Op>, k: nat, x: nat, b: seq<Item>, s'': Places, y: nat)
    requires k < |ops| && Compiled(s, a, s', ops[..k], x) && Compiled(s', b, s'', [ops[k]], y)
    ensures Compiled(s, a + b, s'', ops[..k + 1], x + y)
  {
    hide Simulates, Displacement, Stores;
    if x + y == 0 {
      SimulatesThen(s, a, s', ops[..k], b, s'', ops[k]);
    }
    assert ops[..k + 1] == ops[..k] + [ops[k]];
    DisplacementSum(a, b);
    SumHas(a, b);
  }

  lemma CompiledStores(s: Places, items: seq<Item>, s': Places, ops: seq<Op>, lost: nat)
    requires Compiled(s, items, s', ops, lost)
    ensures s'.spilled <= s.spilled || Stores(items)
  {
  }

  lemma CompiledExactly(s: Places, items: seq<Item>, s': Places, ops: seq<Op>, lost: nat)
    requires Distinct(s) && Compiled(s, items, s', ops, lost)
    ensures Simulates(s, items, s', ops) <==> lost == 0
  {
    hide Simulates, Displacement, Stores, Distinct;
    if Simulates(s, items, s', ops) {
      SimulatesDisplaces(s, items, s', ops);
    }
  }
}
