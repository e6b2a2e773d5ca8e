/**
 What it means that a piece of the flow graph implements an expression or a
 statement, and how such pieces compose.
 */
module TranslationProofs {
  import opened Options
  import opened Int32
  import Ast
  import opened FlowGraph

  /** A place in the graph: before instruction `pc` of block `b`. */
  datatype Point = Point(b: nat, pc: nat)

  ghost predicate Reaches(g: Graph, p: Point, m: Machine, q: Point, m': Machine) {
    exists n: nat :: Run(g, n, At(p.b, p.pc, m)) == Some(At(q.b, q.pc, m'))
  }

  lemma ReachesSelf(g: Graph, p: Point, m: Machine)
    ensures Reaches(g, p, m, p, m)
  {
    assert Run(g, 0, At(p.b, p.pc, m)) == Some(At(p.b, p.pc, m));
  }

  lemma ReachesTransitive(g: Graph, p: Point, m: Machine, q: Point, m': Machine, r: Point, m'': Machine)
    requires Reaches(g, p, m, q, m') && Reaches(g, q, m', r, m'')
    ensures Reaches(g, p, m, r, m'')
  {
    var n: nat :| Run(g, n, At(p.b, p.pc, m)) == Some(At(q.b, q.pc, m'));
    var k: nat :| Run(g, k, At(q.b, q.pc, m')) == Some(At(r.b, r.pc, m''));
    RunSum(g, n, k, At(p.b, p.pc, m));
  }

  lemma ReachesGrows(g: Graph, g': Graph, p: Point, m: Machine, q: Point, m': Machine)
    requires Grows(g, g') && Reaches(g, p, m, q, m')
    ensures Reaches(g', p, m, q, m')
  {
    var n: nat :| Run(g, n, At(p.b, p.pc, m)) == Some(At(q.b, q.pc, m'));
    RunGrows(g, g', n, At(p.b, p.pc, m));
  }

  /** Following the end of a complete block. */
  lemma Jump(g: Graph, p: Point, m: Machine)
    requires p.b < |g| && p.pc == |g[p.b].insts|
    ensures g[p.b].term.Br? ==> Reaches(g, p, m, Point(g[p.b].term.target, 0), m)
    ensures g[p.b].term.CondBr? ==>
              Reaches(g, p, m, Point(if ValueOf(g[p.b].term.control, m.regs) != 0 then g[p.b].term.branch else g[p.b].term.branchElse, 0), m)
  {
    var c := At(p.b, p.pc, m);
    if g[p.b].term.Br? || g[p.b].term.CondBr? {
      assert Run(g, 1, c) == Run(g, 0, Step(g, c).value);
    }
  }

  // ---- straight-line code ----

  ghost function DoAll(insts: seq<Inst>, m: Machine): Machine {
    if insts == [] then m else DoAll(insts[1..], Do(insts[0], m))
  }

  /** The instructions `insts` stand at point `p`. */
  ghost predicate HasCode(g: Graph, p: Point, insts: seq<Inst>) {
    p.b < |g| && p.pc + |insts| <= |g[p.b].insts| && g[p.b].insts[p.pc..p.pc + |insts|] == insts
  }

  lemma RunsStraight(g: Graph, p: Point, insts: seq<Inst>, m: Machine)
    requires HasCode(g, p, insts)
    ensures Reaches(g, p, m, Point(p.b, p.pc + |insts|), DoAll(insts, m))
    decreases |insts|
  {
    if insts == [] {
      ReachesSelf(g, p, m);
    } else {
      var code := g[p.b].insts[p.pc..p.pc + |insts|];
      assert g[p.b].insts[p.pc] == code[0] == insts[0];
      var next, c := Point(p.b, p.pc + 1), At(p.b, p.pc, m);
      assert Run(g, 1, c) == Run(g, 0, Step(g, c).value) == Some(At(next.b, next.pc, Do(insts[0], m)));
      assert g[p.b].insts[p.pc + 1..p.pc + |insts|] == code[1..];
      RunsStraight(g, next, insts[1..], Do(insts[0], m));
      ReachesTransitive(g, p, m, next, Do(insts[0], m), Point(p.b, p.pc + |insts|), DoAll(insts, m));
    }
  }

  lemma DoAllSum(a: seq<Inst>, b: seq<Inst>, m: Machine)
    ensures DoAll(a + b, m) == DoAll(b, DoAll(a, m))
  {
    if a == [] {
      assert a + b == b;
    } else {
      assert (a + b)[1..] == a[1..] + b;
      DoAllSum(a[1..], b, Do(a[0], m));
    }
  }

  // ---- expressions ----

  /** Registers below `r0` are left alone. */
  ghost predicate KeepsRegs(a: map<nat, int>, b: map<nat, int>, r0: nat) {
    forall r: nat :: r < r0 ==> Read(a, r) == Read(b, r)
  }

  ghost predicate ValBelow(v: Val, next: nat) {
    v.Reg? ==> v.r < next
  }

  /** Started at `p`, the machine arrives at `q` with variables `vars`, and operand `v` has the value `x`. */
  ghost predicate Yields(g: Graph, p: Point, m: Machine, r0: nat, q: Point, v: Val, x: int, vars: map<nat, int>) {
    exists m': Machine :: Reaches(g, p, m, q, m') && Delivers(m, m', r0, v, x, vars)
  }

  ghost predicate Delivers(m: Machine, m': Machine, r0: nat, v: Val, x: int, vars: map<nat, int>) {
    m'.vars == vars && ValueOf(v, m'.regs) == x && KeepsRegs(m.regs, m'.regs, r0) && (v.boolean ==> x == 0 || x == 1)
  }

  /** The code from `p` to `q` evaluates `e` into operand `v`. */
  ghost predicate Evaluates(g: Graph, e: Ast.Expr, p: Point, r0: nat, q: Point, v: Val)
    requires Ast.WellFormedExpr(e)
  {
    forall m: Machine :: YieldsValue(g, e, p, r0, q, v, m)
  }

  ghost predicate YieldsValue(g: Graph, e: Ast.Expr, p: Point, r0: nat, q: Point, v: Val, m: Machine)
    requires Ast.WellFormedExpr(e)
  {
    Yields(g, p, m, r0, q, v, Ast.Eval(e, m.vars).value, Ast.Eval(e, m.vars).store)
  }

  /** The code from `p` to `q` evaluates the truth value of `e` into operand `v`. */
  ghost predicate Decides(g: Graph, e: Ast.Expr, p: Point, r0: nat, q: Point, v: Val)
    requires Ast.WellFormedExpr(e)
  {
    forall m: Machine :: YieldsTruth(g, e, p, r0, q, v, m)
  }

  ghost predicate YieldsTruth(g: Graph, e: Ast.Expr, p: Point, r0: nat, q: Point, v: Val, m: Machine)
    requires Ast.WellFormedExpr(e)
  {
    Yields(g, p, m, r0, q, v, Truth(Ast.Eval(e, m.vars).value != 0), Ast.Eval(e, m.vars).store)
  }

  lemma YieldsGrows(g: Graph, g': Graph, p: Point, m: Machine, r0: nat, q: Point, v: Val, x: int, vars: map<nat, int>)
    requires Grows(g, g') && Yields(g, p, m, r0, q, v, x, vars)
    ensures Yields(g', p, m, r0, q, v, x, vars)
  {
    var m' :| Reaches(g, p, m, q, m') && Delivers(m, m', r0, v, x, vars);
    ReachesGrows(g, g', p, m, q, m');
  }

  lemma EvaluatesGrows(g: Graph, g': Graph, e: Ast.Expr, p: Point, r0: nat, q: Point, v: Val)
    requires Grows(g, g') && Ast.WellFormedExpr(e) && Evaluates(g, e, p, r0, q, v)
    ensures Evaluates(g', e, p, r0, q, v)
  {
    hide Grows, Yields, Ast.Eval, Ast.WellFormedExpr;
    forall m: Machine
      ensures YieldsValue(g', e, p, r0, q, v, m)
    {
      assert YieldsValue(g, e, p, r0, q, v, m);
      YieldsGrows(g, g', p, m, r0, q, v, Ast.Eval(e, m.vars).value, Ast.Eval(e, m.vars).store);
    }
  }

  lemma DecidesGrows(g: Graph, g': Graph, e: Ast.Expr, p: Point, r0: nat, q: Point, v: Val)
    requires Grows(g, g') && Ast.WellFormedExpr(e) && Decides(g, e, p, r0, q, v)
    ensures Decides(g', e, p, r0, q, v)
  {
    hide Grows, Yields, Ast.Eval, Ast.WellFormedExpr;
    forall m: Machine
      ensures YieldsTruth(g', e, p, r0, q, v, m)
    {
      assert YieldsTruth(g, e, p, r0, q, v, m);
      YieldsGrows(g, g', p, m, r0, q, v, Truth(Ast.Eval(e, m.vars).value != 0), Ast.Eval(e, m.vars).store);
    }
  }

  /** What appended straight-line code does with the operand `v` it starts from. */
  ghost predicate TailMaps(tail: seq<Inst>, r0: nat, v: Val, v': Val, x: int, x': int, vars: map<nat, int>, vars': map<nat, int>) {
    (v.boolean ==> x == 0 || x == 1) ==>
      forall m: Machine :: m.vars == vars && ValueOf(v, m.regs) == x ==> Delivers(m, DoAll(tail, m), r0, v', x', vars')
  }

  /** Extending an evaluation by straight-line code. */
  lemma YieldsThenTail(g: Graph, p: Point, m: Machine, r0: nat, q: Point, v: Val, x: int, vars: map<nat, int>,
                       tail: seq<Inst>, r1: nat, v': Val, x': int, vars': map<nat, int>)
    requires Yields(g, p, m, r0, q, v, x, vars) && HasCode(g, q, tail) && r0 <= r1
    requires TailMaps(tail, r1, v, v', x, x', vars, vars')
    ensures Yields(g, p, m, r0, Point(q.b, q.pc + |tail|), v', x', vars')
  {
    var m1 :| Reaches(g, p, m, q, m1) && Delivers(m, m1, r0, v, x, vars);
    RunsStraight(g, q, tail, m1);
    ReachesTransitive(g, p, m, q, m1, Point(q.b, q.pc + |tail|), DoAll(tail, m1));
    assert Delivers(m1, DoAll(tail, m1), r1, v', x', vars');
  }

  /** Two evaluations in a row, followed by straight-line code that combines their operands. */
  ghost predicate TailCombines(tail: seq<Inst>, r0: nat, l: Val, r: Val, v: Val, x: int, y: int, z: int, vars: map<nat, int>, vars': map<nat, int>) {
    forall m: Machine :: m.vars == vars && ValueOf(l, m.regs) == x && ValueOf(r, m.regs) == y ==> Delivers(m, DoAll(tail, m), r0, v, z, vars')
  }

  lemma YieldsTwice(g: Graph, p: Point, m: Machine, r0: nat, q: Point, l: Val, x: int, s: map<nat, int>,
                    r1: nat, q': Point, r: Val, y: int, s': map<nat, int>,
                    tail: seq<Inst>, r2: nat, v: Val, z: int, s'': map<nat, int>)
    requires Yields(g, p, m, r0, q, l, x, s) && r0 <= r1 <= r2 && ValBelow(l, r1)
    requires forall m1: Machine :: m1.vars == s ==> Yields(g, q, m1, r1, q', r, y, s')
    requires HasCode(g, q', tail)
    requires (l.boolean ==> x == 0 || x == 1) && (r.boolean ==> y == 0 || y == 1) ==> TailCombines(tail, r2, l, r, v, x, y, z, s', s'')
    ensures Yields(g, p, m, r0, Point(q'.b, q'.pc + |tail|), v, z, s'')
  {
    hide Reaches, HasCode, TailCombines, KeepsRegs;
    var m1 :| Reaches(g, p, m, q, m1) && Delivers(m, m1, r0, l, x, s);
    assert Yields(g, q, m1, r1, q', r, y, s');
    var m2 :| Reaches(g, q, m1, q', m2) && Delivers(m1, m2, r1, r, y, s');
    RunsStraight(g, q', tail, m2);
    var end, m3 := Point(q'.b, q'.pc + |tail|), DoAll(tail, m2);
    ReachesTransitive(g, p, m, q, m1, q', m2);
    ReachesTransitive(g, p, m, q', m2, end, m3);
    KeptBelow(m1.regs, m2.regs, r1, l);
    TailDelivers(tail, r2, l, r, v, x, y, z, s', s'', m2);
    KeepsAlong(m.regs, m1.regs, m2.regs, r0, r1);
    KeepsAlong(m.regs, m2.regs, m3.regs, r0, r2);
  }

  lemma KeptBelow(a: map<nat, int>, b: map<nat, int>, r0: nat, v: Val)
    requires KeepsRegs(a, b, r0) && ValBelow(v, r0)
    ensures ValueOf(v, a) == ValueOf(v, b)
  {
  }

  lemma KeepsAlong(a: map<nat, int>, b: map<nat, int>, c: map<nat, int>, r0: nat, r1: nat)
    requires KeepsRegs(a, b, r0) && KeepsRegs(b, c, r1) && r0 <= r1
    ensures KeepsRegs(a, c, r0)
  {
  }

  lemma TailDelivers(tail: seq<Inst>, r0: nat, l: Val, r: Val, v: Val, x: int, y: int, z: int, vars: map<nat, int>, vars': map<nat, int>, m: Machine)
    requires TailCombines(tail, r0, l, r, v, x, y, z, vars, vars')
    requires m.vars == vars && ValueOf(l, m.regs) == x && ValueOf(r, m.regs) == y
    ensures Delivers(m, DoAll(tail, m), r0, v, z, vars')
  {
  }

  /** Evaluating `e'` by evaluating `e` and running straight-line code on the result. */
  lemma EvaluatesThenTail(g: Graph, g': Graph, e: Ast.Expr, e': Ast.Expr, p: Point, r0: nat, q: Point, v: Val, tail: seq<Inst>, r1: nat, v': Val)
    requires Grows(g, g') && Ast.WellFormedExpr(e) && Ast.WellFormedExpr(e') && Evaluates(g, e, p, r0, q, v)
    requires HasCode(g', q, tail) && r0 <= r1
    requires forall s: Ast.Store ::
               TailMaps(tail, r1, v, v', Ast.Eval(e, s).value, Ast.Eval(e', s).value, Ast.Eval(e, s).store, Ast.Eval(e', s).store)
    ensures Evaluates(g', e', p, r0, Point(q.b, q.pc + |tail|), v')
  {
    hide Grows, Yields, TailMaps, Ast.Eval, HasCode, Ast.WellFormedExpr, Truth;
    EvaluatesGrows(g, g', e, p, r0, q, v);
    var end := Point(q.b, q.pc + |tail|);
    forall m: Machine
      ensures YieldsValue(g', e', p, r0, end, v', m)
    {
      assert YieldsValue(g', e, p, r0, q, v, m);
      var o, o' := Ast.Eval(e, m.vars), Ast.Eval(e', m.vars);
      YieldsThenTail(g', p, m, r0, q, v, o.value, o.store, tail, r1, v', o'.value, o'.store);
    }
  }

  /** Deciding `e` by evaluating it and reducing the result to a boolean. */
  lemma DecidesByTail(g: Graph, g': Graph, e: Ast.Expr, p: Point, r0: nat, q: Point, v: Val, tail: seq<Inst>, r1: nat, v': Val)
    requires Grows(g, g') && Ast.WellFormedExpr(e) && Evaluates(g, e, p, r0, q, v)
    requires HasCode(g', q, tail) && r0 <= r1
    requires forall s: Ast.Store ::
               TailMaps(tail, r1, v, v', Ast.Eval(e, s).value, Truth(Ast.Eval(e, s).value != 0), Ast.Eval(e, s).store, Ast.Eval(e, s).store)
    ensures Decides(g', e, p, r0, Point(q.b, q.pc + |tail|), v')
  {
    hide Grows, Yields, TailMaps, Ast.Eval, HasCode, Ast.WellFormedExpr, Truth;
    EvaluatesGrows(g, g', e, p, r0, q, v);
    var end := Point(q.b, q.pc + |tail|);
    forall m: Machine
      ensures YieldsTruth(g', e, p, r0, end, v', m)
    {
      assert YieldsValue(g', e, p, r0, q, v, m);
      var o := Ast.Eval(e, m.vars);
      YieldsThenTail(g', p, m, r0, q, v, o.value, o.store, tail, r1, v', Truth(o.value != 0), o.store);
    }
  }

  /** Evaluating `e` by evaluating `l` and then `r`, and combining the results by straight-line code. */
  lemma EvaluatesBoth(g: Graph, g1: Graph, g2: Graph, e: Ast.Expr, l: Ast.Expr, r: Ast.Expr, p: Point, r0: nat, q: Point, vl: Val,
                      r1: nat, q': Point, vr: Val, tail: seq<Inst>, r2: nat, v: Val)
    requires Ast.WellFormedExpr(e) && Ast.WellFormedExpr(l) && Ast.WellFormedExpr(r)
    requires Grows(g, g2) && Evaluates(g, l, p, r0, q, vl) && ValBelow(vl, r1) && r0 <= r1 <= r2
    requires Grows(g1, g2) && Evaluates(g1, r, q, r1, q', vr) && HasCode(g2, q', tail)
    requires forall s: Ast.Store :: CombinesInto(tail, r2, e, l, r, vl, vr, v, s)
    ensures Evaluates(g2, e, p, r0, Point(q'.b, q'.pc + |tail|), v)
  {
    hide Grows, Ast.Eval, HasCode, Ast.WellFormedExpr, YieldsValue, CombinesInto;
    EvaluatesGrows(g, g2, l, p, r0, q, vl);
    EvaluatesGrows(g1, g2, r, q, r1, q', vr);
    var end := Point(q'.b, q'.pc + |tail|);
    forall m: Machine
      ensures YieldsValue(g2, e, p, r0, end, v, m)
    {
      YieldsBoth(g2, e, l, r, p, r0, q, vl, r1, q', vr, tail, r2, v, m);
    }
  }

  lemma YieldsBoth(g: Graph, e: Ast.Expr, l: Ast.Expr, r: Ast.Expr, p: Point, r0: nat, q: Point, vl: Val,
                   r1: nat, q': Point, vr: Val, tail: seq<Inst>, r2: nat, v: Val, m: Machine)
    requires Ast.WellFormedExpr(e) && Ast.WellFormedExpr(l) && Ast.WellFormedExpr(r)
    requires Evaluates(g, l, p, r0, q, vl) && ValBelow(vl, r1) && r0 <= r1 <= r2
    requires Evaluates(g, r, q, r1, q', vr) && HasCode(g, q', tail)
    requires CombinesInto(tail, r2, e, l, r, vl, vr, v, m.vars)
    ensures YieldsValue(g, e, p, r0, Point(q'.b, q'.pc + |tail|), v, m)
  {
    hide Yields, Ast.Eval, HasCode, Ast.WellFormedExpr, TailCombines;
    var ol := Ast.Eval(l, m.vars);
    var or, o := Ast.Eval(r, ol.store), Ast.Eval(e, m.vars);
    assert YieldsValue(g, l, p, r0, q, vl, m);
    forall m1: Machine | m1.vars == ol.store
      ensures Yields(g, q, m1, r1, q', vr, or.value, or.store)
    {
      assert YieldsValue(g, r, q, r1, q', vr, m1);
    }
    YieldsTwice(g, p, m, r0, q, vl, ol.value, ol.store, r1, q', vr, or.value, or.store, tail, r2, v, o.value, o.store);
  }

  ghost predicate CombinesInto(tail: seq<Inst>, r0: nat, e: Ast.Expr, l: Ast.Expr, r: Ast.Expr, vl: Val, vr: Val, v: Val, s: Ast.Store)
    requires Ast.WellFormedExpr(e) && Ast.WellFormedExpr(l) && Ast.WellFormedExpr(r)
  {
    var ol := Ast.Eval(l, s);
    var or, o := Ast.Eval(r, ol.store), Ast.Eval(e, s);
    (vl.boolean ==> ol.value == 0 || ol.value == 1) && (vr.boolean ==> or.value == 0 || or.value == 1) ==>
      TailCombines(tail, r0, vl, vr, v, ol.value, or.value, o.value, or.store, o.store)
  }

  // ---- short-circuit operators ----

  /** `tail` leaves the truth value of `v` in cell `k` and in operand `w`. */
  ghost predicate TestsInto(tail: seq<Inst>, r0: nat, v: Val, w: Val, k: nat, m: Machine) {
    var m' := DoAll(tail, m);
    (v.boolean ==> ValueOf(v, m.regs) == 0 || ValueOf(v, m.regs) == 1) ==>
      && m'.vars == m.vars
      && KeepsRegs(m.regs, m'.regs, r0)
      && ValueOf(w, m'.regs) == Truth(ValueOf(v, m.regs) != 0)
      && Read(m'.tmps, k) == Truth(ValueOf(v, m.regs) != 0)
  }

  /** Evaluate `e`, leave its truth value in cell `k` and operand `w`, and stand at the end of the block. */
  lemma TestYields(g: Graph, e: Ast.Expr, p: Point, r0: nat, q: Point, v: Val, tail: seq<Inst>, r1: nat, w: Val, k: nat, m: Machine) returns (m': Machine)
    requires Ast.WellFormedExpr(e) && Evaluates(g, e, p, r0, q, v) && HasCode(g, q, tail) && r0 <= r1
    requires forall m: Machine :: TestsInto(tail, r1, v, w, k, m)
    ensures Reaches(g, p, m, Point(q.b, q.pc + |tail|), m')
    ensures m'.vars == Ast.Eval(e, m.vars).store && KeepsRegs(m.regs, m'.regs, r0)
    ensures ValueOf(w, m'.regs) == Read(m'.tmps, k) == Truth(Ast.Eval(e, m.vars).value != 0)
  {
    hide Ast.Eval, Ast.WellFormedExpr, Reaches, HasCode;
    assert YieldsValue(g, e, p, r0, q, v, m);
    var o := Ast.Eval(e, m.vars);
    var m1 :| Reaches(g, p, m, q, m1) && Delivers(m, m1, r0, v, o.value, o.store);
    m' := DoAll(tail, m1);
    RunsStraight(g, q, tail, m1);
    ReachesTransitive(g, p, m, q, m1, Point(q.b, q.pc + |tail|), m');
    assert TestsInto(tail, r1, v, w, k, m1);
  }

  ghost predicate EndsBlock(g: Graph, p: Point, term: Term) {
    p.b < |g| && p.pc == |g[p.b].insts| && g[p.b].term == term
  }

  ghost function BranchesFor(op: Ast.BinaryOp, w: Val, next: nat, exit: nat): Term {
    if op == Ast.LAnd then CondBr(w, next, exit) else CondBr(w, exit, next)
  }

  lemma ReadsCell(g: Graph, exit: nat, dst: nat, k: nat, m: Machine)
    requires HasCode(g, Point(exit, 0), [Load(dst, TmpAddr(k))])
    ensures Reaches(g, Point(exit, 0), m, Point(exit, 1), m.(regs := m.regs[dst := Read(m.tmps, k)]))
  {
    RunsStraight(g, Point(exit, 0), [Load(dst, TmpAddr(k))], m);
    assert DoAll([Load(dst, TmpAddr(k))], m) == Do(Load(dst, TmpAddr(k)), m);
  }

  lemma ShortCircuitValue(e: Ast.Expr, op: Ast.BinaryOp, lhs: Ast.Expr, rhs: Ast.Expr, s: Ast.Store)
    requires e == Ast.Binary(op, lhs, rhs) && Ast.WellFormedExpr(e) && (op == Ast.LAnd || op == Ast.LOr)
    ensures Ast.WellFormedExpr(lhs) && Ast.WellFormedExpr(rhs)
    ensures var l := Ast.Eval(lhs, s);
            var r := Ast.Eval(rhs, l.store);
            Ast.Eval(e, s) == if op == Ast.LAnd && l.value == 0 then Ast.Outcome(0, l.store)
                              else if op == Ast.LOr && l.value != 0 then Ast.Outcome(1, l.store)
                              else Ast.Outcome(Truth(r.value != 0), r.store)
  {
  }

  /** The diamond of a short-circuit operator evaluates the operator. */
  lemma ShortCircuitYields(g: Graph, e: Ast.Expr, op: Ast.BinaryOp, lhs: Ast.Expr, rhs: Ast.Expr, p: Point, r0: nat,
                           q: Point, l: Val, tail: seq<Inst>, r1: nat, w: Val, next: nat, exit: nat,
                           r2: nat, q': Point, r: Val, tail': seq<Inst>, r3: nat, w': Val, k: nat, dst: nat, m: Machine)
    requires e == Ast.Binary(op, lhs, rhs) && Ast.WellFormedExpr(e) && (op == Ast.LAnd || op == Ast.LOr)
    requires r0 <= r1 && r0 <= r2 <= r3 && r0 <= dst
    requires Evaluates(g, lhs, p, r0, q, l) && HasCode(g, q, tail) && EndsBlock(g, Point(q.b, q.pc + |tail|), BranchesFor(op, w, next, exit))
    requires forall m: Machine :: TestsInto(tail, r1, l, w, k, m)
    requires Evaluates(g, rhs, Point(next, 0), r2, q', r) && HasCode(g, q', tail') && EndsBlock(g, Point(q'.b, q'.pc + |tail'|), Br(exit))
    requires forall m: Machine :: TestsInto(tail', r3, r, w', k, m)
    requires HasCode(g, Point(exit, 0), [Load(dst, TmpAddr(k))])
    ensures YieldsValue(g, e, p, r0, Point(exit, 1), Reg(dst, true), m)
  {
    hide Ast.Eval, Reaches, HasCode, Evaluates, TestsInto, Run, Step;
    ShortCircuitValue(e, op, lhs, rhs, m.vars);
    var ol := Ast.Eval(lhs, m.vars);
    var o := Ast.Eval(e, m.vars);
    var m1 := TestYields(g, lhs, p, r0, q, l, tail, r1, w, k, m);
    var end := Point(q.b, q.pc + |tail|);
    Jump(g, end, m1);
    var skips := if op == Ast.LAnd then ol.value == 0 else ol.value != 0;
    var m2, at := m1, end;
    if !skips {
      var end' := Point(q'.b, q'.pc + |tail'|);
      ReachesTransitive(g, p, m, end, m1, Point(next, 0), m1);
      m2 := TestYields(g, rhs, Point(next, 0), r2, q', r, tail', r3, w', k, m1);
      Jump(g, end', m2);
      ReachesTransitive(g, p, m, Point(next, 0), m1, end', m2);
      at := end';
    }
    ReachesTransitive(g, p, m, at, m2, Point(exit, 0), m2);
    ReadsCell(g, exit, dst, k, m2);
    var m3 := m2.(regs := m2.regs[dst := Read(m2.tmps, k)]);
    ReachesTransitive(g, p, m, Point(exit, 0), m2, Point(exit, 1), m3);
    assert Delivers(m, m3, r0, Reg(dst, true), o.value, o.store) by {
      KeepsAlong(m.regs, m1.regs, m2.regs, r0, r0);
    }
  }

  // ---- comma lists ----

  lemma EvalListSnoc(es: seq<Ast.Expr>, e: Ast.Expr, s: Ast.Store)
    requires es != [] && (forall k :: 0 <= k < |es| ==> Ast.WellFormedExpr(es[k])) && Ast.WellFormedExpr(e)
    ensures forall k :: 0 <= k < |es + [e]| ==> Ast.WellFormedExpr((es + [e])[k])
    ensures Ast.EvalList(es + [e], s) == Ast.Eval(e, Ast.EvalList(es, s).store)
  {
    var all := es + [e];
    if |es| == 1 {
      assert all[1..] == [e];
    } else {
      assert all[1..] == es[1..] + [e];
      EvalListSnoc(es[1..], e, Ast.Eval(es[0], s).store);
    }
  }

  /** One more element of a comma list. */
  lemma EvaluatesNext(g: Graph, g': Graph, es: seq<Ast.Expr>, e: Ast.Expr, p: Point, r0: nat, q: Point, v: Val, r1: nat, q': Point, v': Val)
    requires Ast.WellFormedExpr(Ast.Comma(es)) && Ast.WellFormedExpr(e) && Grows(g, g') && r0 <= r1
    requires Evaluates(g, Ast.Comma(es), p, r0, q, v) && Evaluates(g', e, q, r1, q', v')
    ensures Ast.WellFormedExpr(Ast.Comma(es + [e])) && Evaluates(g', Ast.Comma(es + [e]), p, r0, q', v')
  {
    EvaluatesGrows(g, g', Ast.Comma(es), p, r0, q, v);
    forall k | 0 <= k < |es + [e]|
      ensures Ast.WellFormedExpr((es + [e])[k])
    {
    }
    var all := Ast.Comma(es + [e]);
    forall m: Machine
      ensures YieldsValue(g', all, p, r0, q', v', m)
    {
      EvalListSnoc(es, e, m.vars);
      var o := Ast.Eval(Ast.Comma(es), m.vars);
      assert YieldsValue(g', Ast.Comma(es), p, r0, q, v, m);
      hide Ast.Eval, Reaches;
      var m1 :| Reaches(g', p, m, q, m1) && Delivers(m, m1, r0, v, o.value, o.store);
      assert YieldsValue(g', e, q, r1, q', v', m1);
      var o' := Ast.Eval(e, m1.vars);
      var m2 :| Reaches(g', q, m1, q', m2) && Delivers(m1, m2, r1, v', o'.value, o'.store);
      ReachesTransitive(g', p, m, q, m1, q', m2);
      assert Delivers(m, m2, r0, v', o'.value, o'.store);
    }
  }
}
