/** What it means that a piece of the flow graph implements a statement, and why the shapes built for statements do. */
module StatementProofs {
  import opened Options
  import opened Int32
  import Ast
  import opened FlowGraph
  import opened TranslationProofs

  /** Started at `p`, the machine arrives at `q` with variables `vars`. */
  ghost predicate Arrives(g: Graph, p: Point, m: Machine, q: Point, vars: Ast.Store) {
    exists m': Machine :: Reaches(g, p, m, q, m') && m'.vars == vars
  }

  ghost predicate Halts(g: Graph, p: Point, m: Machine, v: Option<int>, vars: Ast.Store) {
    exists n: nat :: Run(g, n, At(p.b, p.pc, m)) == Some(Halt(v, vars))
  }

  /** The machine makes at least `n` steps. */
  ghost predicate KeepsRunning(g: Graph, p: Point, m: Machine, n: nat) {
    Run(g, n, At(p.b, p.pc, m)).Some?
  }

  /** The run from `p` ends the way the statement does. */
  ghost predicate Matches(g: Graph, r: Ast.Result, p: Point, m: Machine, q: Point, brk: nat, cont: nat, n: nat) {
    match r
    case Normal(vars) => Arrives(g, p, m, q, vars)
    case Broke(vars) => Arrives(g, p, m, Point(brk, 0), vars)
    case Continued(vars) => Arrives(g, p, m, Point(cont, 0), vars)
    case Returned(v, vars) => Halts(g, p, m, v, vars)
    case Timeout => KeepsRunning(g, p, m, n)
  }

  ghost predicate Behaves(g: Graph, s: Ast.Stmt, loop: Ast.LoopKind, p: Point, q: Point, brk: nat, cont: nat, m: Machine, n: nat)
    requires Ast.WellFormed(s, loop)
  {
    Matches(g, Ast.Exec(s, loop, n, m.vars), p, m, q, brk, cont, n)
  }

  /** The code at `p` implements `s`: it goes on at `q`, and leaves by `brk` and `cont`. */
  ghost predicate Implements(g: Graph, s: Ast.Stmt, loop: Ast.LoopKind, p: Point, q: Point, brk: nat, cont: nat)
    requires Ast.WellFormed(s, loop)
  {
    forall m: Machine, n: nat :: Behaves(g, s, loop, p, q, brk, cont, m, n)
  }

  lemma MatchesGrows(g: Graph, g': Graph, r: Ast.Result, p: Point, m: Machine, q: Point, brk: nat, cont: nat, n: nat)
    requires Grows(g, g') && Matches(g, r, p, m, q, brk, cont, n)
    ensures Matches(g', r, p, m, q, brk, cont, n)
  {
    match r
    case Normal(vars) => ArrivesGrows(g, g', p, m, q, vars);
    case Broke(vars) => ArrivesGrows(g, g', p, m, Point(brk, 0), vars);
    case Continued(vars) => ArrivesGrows(g, g', p, m, Point(cont, 0), vars);
    case Returned(v, vars) =>
      var k: nat :| Run(g, k, At(p.b, p.pc, m)) == Some(Halt(v, vars));
      RunGrows(g, g', k, At(p.b, p.pc, m));
    case Timeout => RunGrows(g, g', n, At(p.b, p.pc, m));
  }

  lemma ArrivesGrows(g: Graph, g': Graph, p: Point, m: Machine, q: Point, vars: Ast.Store)
    requires Grows(g, g') && Arrives(g, p, m, q, vars)
    ensures Arrives(g', p, m, q, vars)
  {
    var m' :| Reaches(g, p, m, q, m') && m'.vars == vars;
    ReachesGrows(g, g', p, m, q, m');
  }

  lemma ImplementsGrows(g: Graph, g': Graph, s: Ast.Stmt, loop: Ast.LoopKind, p: Point, q: Point, brk: nat, cont: nat)
    requires Grows(g, g') && Ast.WellFormed(s, loop) && Implements(g, s, loop, p, q, brk, cont)
    ensures Implements(g', s, loop, p, q, brk, cont)
  {
    hide Grows, Matches, Ast.Exec, Ast.WellFormed;
    forall m: Machine, n: nat
      ensures Behaves(g', s, loop, p, q, brk, cont, m, n)
    {
      assert Behaves(g, s, loop, p, q, brk, cont, m, n);
      MatchesGrows(g, g', Ast.Exec(s, loop, n, m.vars), p, m, q, brk, cont, n);
    }
  }

  // ---- prefixing and suffixing runs ----

  lemma ArrivesAfter(g: Graph, p: Point, m: Machine, p': Point, m': Machine, q: Point, vars: Ast.Store)
    requires Reaches(g, p, m, p', m') && Arrives(g, p', m', q, vars)
    ensures Arrives(g, p, m, q, vars)
  {
    var m'' :| Reaches(g, p', m', q, m'') && m''.vars == vars;
    ReachesTransitive(g, p, m, p', m', q, m'');
  }

  /** A run that first goes from `p` to `p'`; if these differ it makes one step more. */
  lemma MatchesAfter(g: Graph, r: Ast.Result, p: Point, m: Machine, p': Point, m': Machine, q: Point, brk: nat, cont: nat, n: nat, n': nat)
    requires Reaches(g, p, m, p', m') && Matches(g, r, p', m', q, brk, cont, n)
    requires n' == n || (n' == n + 1 && p != p')
    ensures Matches(g, r, p, m, q, brk, cont, n')
  {
    match r
    case Normal(vars) => ArrivesAfter(g, p, m, p', m', q, vars);
    case Broke(vars) => ArrivesAfter(g, p, m, p', m', Point(brk, 0), vars);
    case Continued(vars) => ArrivesAfter(g, p, m, p', m', Point(cont, 0), vars);
    case Returned(v, vars) =>
      var i: nat :| Run(g, i, At(p.b, p.pc, m)) == Some(At(p'.b, p'.pc, m'));
      var k: nat :| Run(g, k, At(p'.b, p'.pc, m')) == Some(Halt(v, vars));
      RunSum(g, i, k, At(p.b, p.pc, m));
    case Timeout =>
      var i: nat :| Run(g, i, At(p.b, p.pc, m)) == Some(At(p'.b, p'.pc, m'));
      RunSum(g, i, n, At(p.b, p.pc, m));
      RunPrefix(g, i + n, n', At(p.b, p.pc, m));
  }

  /** Going on with a jump. */
  lemma MatchesThenJump(g: Graph, r: Ast.Result, p: Point, m: Machine, q: Point, next: nat, brk: nat, cont: nat, n: nat)
    requires Matches(g, r, p, m, q, brk, cont, n) && EndsBlock(g, q, Br(next))
    ensures Matches(g, r, p, m, Point(next, 0), brk, cont, n)
  {
    if r.Normal? {
      var m' :| Reaches(g, p, m, q, m') && m'.vars == r.store;
      Jump(g, q, m');
      ReachesTransitive(g, p, m, q, m', Point(next, 0), m');
    }
  }

  /** Where control goes after a condition. */
  lemma DecidesThenBranch(g: Graph, c: Ast.Expr, p: Point, r0: nat, q: Point, w: Val, x: nat, y: nat, m: Machine) returns (m': Machine)
    requires Ast.WellFormedExpr(c) && Decides(g, c, p, r0, q, w) && EndsBlock(g, q, CondBr(w, x, y))
    ensures m'.vars == Ast.Eval(c, m.vars).store
    ensures Reaches(g, p, m, Point(if Ast.Eval(c, m.vars).value != 0 then x else y, 0), m')
  {
    hide Ast.Eval, Reaches, Ast.WellFormedExpr;
    assert YieldsTruth(g, c, p, r0, q, w, m);
    var o := Ast.Eval(c, m.vars);
    m' :| Reaches(g, p, m, q, m') && Delivers(m, m', r0, w, Truth(o.value != 0), o.store);
    Jump(g, q, m');
    ReachesTransitive(g, p, m, q, m', Point(if o.value != 0 then x else y, 0), m');
  }

  // ---- simple statements ----

  lemma ExprStmtImplements(g: Graph, e: Ast.Expr, loop: Ast.LoopKind, p: Point, r0: nat, q: Point, v: Val, brk: nat, cont: nat)
    requires Ast.WellFormedExpr(e) && Evaluates(g, e, p, r0, q, v)
    ensures Implements(g, Ast.ExprStmt(e), loop, p, q, brk, cont)
  {
    forall m: Machine, n: nat
      ensures Behaves(g, Ast.ExprStmt(e), loop, p, q, brk, cont, m, n)
    {
      assert YieldsValue(g, e, p, r0, q, v, m);
      hide Ast.Eval, Reaches;
      var o := Ast.Eval(e, m.vars);
      var m' :| Reaches(g, p, m, q, m') && Delivers(m, m', r0, v, o.value, o.store);
      assert Arrives(g, p, m, q, o.store);
    }
  }

  /** A declaration without initialiser, and the empty statement: nothing happens to the variables. */
  lemma IdleImplements(g: Graph, s: Ast.Stmt, loop: Ast.LoopKind, p: Point, q: Point, code: seq<Inst>, brk: nat, cont: nat)
    requires s.Null? || (s.Decl? && s.init.None?)
    requires HasCode(g, p, code) && q == Point(p.b, p.pc + |code|) && forall m: Machine :: DoAll(code, m) == m
    ensures Implements(g, s, loop, p, q, brk, cont)
  {
    forall m: Machine, n: nat
      ensures Behaves(g, s, loop, p, q, brk, cont, m, n)
    {
      RunsStraight(g, p, code, m);
      assert Reaches(g, p, m, q, m);
    }
  }

  lemma DeclImplements(g: Graph, g': Graph, x: nat, e: Ast.Expr, loop: Ast.LoopKind, p: Point, p': Point, r0: nat, q: Point, v: Val, brk: nat, cont: nat)
    requires Ast.WellFormedExpr(e) && Grows(g, g')
    requires HasCode(g', p, [Alloca(VarAddr(x))]) && p' == Point(p.b, p.pc + 1)
    requires Evaluates(g, e, p', r0, q, v) && HasCode(g', q, [Store(VarAddr(x), v)])
    ensures Implements(g', Ast.Decl(x, Some(e)), loop, p, Point(q.b, q.pc + 1), brk, cont)
  {
    var s, end := Ast.Decl(x, Some(e)), Point(q.b, q.pc + 1);
    EvaluatesGrows(g, g', e, p', r0, q, v);
    forall m: Machine, n: nat
      ensures Behaves(g', s, loop, p, end, brk, cont, m, n)
    {
      var o := Ast.Eval(e, m.vars);
      assert Ast.Exec(s, loop, n, m.vars) == Ast.Normal(o.store[x := o.value]);
      assert YieldsValue(g', e, p', r0, q, v, m);
      RunsStraight(g', p, [Alloca(VarAddr(x))], m);
      assert DoAll([Alloca(VarAddr(x))], m) == Do(Alloca(VarAddr(x)), m);
      hide Ast.Eval, Reaches, HasCode;
      var m1 :| Reaches(g', p', m, q, m1) && Delivers(m, m1, r0, v, o.value, o.store);
      RunsStraight(g', q, [Store(VarAddr(x), v)], m1);
      var m2 := Do(Store(VarAddr(x), v), m1);
      assert DoAll([Store(VarAddr(x), v)], m1) == m2;
      ReachesTransitive(g', p, m, p', m, q, m1);
      ReachesTransitive(g', p, m, q, m1, end, m2);
    }
  }

  /** `break` and `continue` jump to the blocks noted for the loop. */
  lemma LeaveImplements(g: Graph, s: Ast.Stmt, loop: Ast.LoopKind, p: Point, q: Point, brk: nat, cont: nat)
    requires Ast.WellFormed(s, loop) && (s.Break? || s.Continue?) && EndsBlock(g, p, Br(if s.Break? then brk else cont))
    ensures Implements(g, s, loop, p, q, brk, cont)
  {
    forall m: Machine, n: nat
      ensures Behaves(g, s, loop, p, q, brk, cont, m, n)
    {
      Jump(g, p, m);
    }
  }

  lemma HaltsAt(g: Graph, p: Point, m: Machine, q: Point, m': Machine, v: Option<Val>)
    requires Reaches(g, p, m, q, m') && EndsBlock(g, q, Ret(v))
    ensures Halts(g, p, m, if v.Some? then Some(ValueOf(v.value, m'.regs)) else None, m'.vars)
  {
    var n: nat :| Run(g, n, At(p.b, p.pc, m)) == Some(At(q.b, q.pc, m'));
    RunSum(g, n, 1, At(p.b, p.pc, m));
    var c := At(q.b, q.pc, m');
    assert Run(g, 1, c) == Run(g, 0, Step(g, c).value);
  }

  lemma ReturnImplements(g: Graph, e: Option<Ast.Expr>, loop: Ast.LoopKind, p: Point, r0: nat, q: Point, v: Option<Val>, q': Point, brk: nat, cont: nat)
    requires Ast.WellFormedOpt(e) && EndsBlock(g, q, Ret(v)) && (e.Some? <==> v.Some?)
    requires if e.Some? then Evaluates(g, e.value, p, r0, q, v.value) else p == q
    ensures Implements(g, Ast.Return(e), loop, p, q', brk, cont)
  {
    forall m: Machine, n: nat
      ensures Behaves(g, Ast.Return(e), loop, p, q', brk, cont, m, n)
    {
      if e.None? {
        ReachesSelf(g, p, m);
        HaltsAt(g, p, m, q, m, v);
      } else {
        assert YieldsValue(g, e.value, p, r0, q, v.value, m);
        var o := Ast.Eval(e.value, m.vars);
        assert Ast.Exec(Ast.Return(e), loop, n, m.vars) == Ast.Returned(Some(o.value), o.store);
        hide Ast.Eval, Reaches;
        var m1 :| Reaches(g, p, m, q, m1) && Delivers(m, m1, r0, v.value, o.value, o.store);
        HaltsAt(g, p, m, q, m1, v);
      }
    }
  }

  // ---- sequences ----

  lemma {:induction false} ExecListSnoc(ss: seq<Ast.Stmt>, s: Ast.Stmt, loop: Ast.LoopKind, n: nat, vars: Ast.Store)
    requires (forall k :: 0 <= k < |ss| ==> Ast.WellFormed(ss[k], loop)) && Ast.WellFormed(s, loop)
    ensures forall k :: 0 <= k < |ss + [s]| ==> Ast.WellFormed((ss + [s])[k], loop)
    ensures var r := Ast.ExecList(ss, loop, n, vars);
            Ast.ExecList(ss + [s], loop, n, vars) == if r.Normal? then Ast.Exec(s, loop, n, r.store) else r
  {
    hide Ast.Exec, Ast.WellFormed;
    var all := ss + [s];
    if ss == [] {
      assert all[0] == s && all[1..] == [];
    } else {
      assert all[0] == ss[0] && all[1..] == ss[1..] + [s];
      var r := Ast.Exec(ss[0], loop, n, vars);
      if r.Normal? {
        ExecListSnoc(ss[1..], s, loop, n, r.store);
      }
    }
  }

  lemma ImplementsNext(g: Graph, g': Graph, ss: seq<Ast.Stmt>, s: Ast.Stmt, loop: Ast.LoopKind, p: Point, q: Point, q': Point, brk: nat, cont: nat)
    requires Ast.WellFormed(Ast.Compound(ss), loop) && Ast.WellFormed(s, loop) && Grows(g, g')
    requires Implements(g, Ast.Compound(ss), loop, p, q, brk, cont) && Implements(g', s, loop, q, q', brk, cont)
    ensures Ast.WellFormed(Ast.Compound(ss + [s]), loop) && Implements(g', Ast.Compound(ss + [s]), loop, p, q', brk, cont)
  {
    assert forall k :: 0 <= k < |ss + [s]| ==> Ast.WellFormed((ss + [s])[k], loop);
    ImplementsGrows(g, g', Ast.Compound(ss), loop, p, q, brk, cont);
    forall m: Machine, n: nat
      ensures Behaves(g', Ast.Compound(ss + [s]), loop, p, q', brk, cont, m, n)
    {
      CompoundExec(ss, loop, n, m.vars);
      CompoundExec(ss + [s], loop, n, m.vars);
      ExecListSnoc(ss, s, loop, n, m.vars);
      hide Ast.Exec, Ast.ExecList, Ast.WellFormed, Reaches;
      assert Behaves(g', Ast.Compound(ss), loop, p, q, brk, cont, m, n);
      var r := Ast.ExecList(ss, loop, n, m.vars);
      if r.Normal? {
        var m' :| Reaches(g', p, m, q, m') && m'.vars == r.store;
        assert Behaves(g', s, loop, q, q', brk, cont, m', n);
        MatchesAfter(g', Ast.Exec(s, loop, n, m'.vars), p, m, q, m', q', brk, cont, n, n);
      }
    }
  }

  lemma CompoundExec(ss: seq<Ast.Stmt>, loop: Ast.LoopKind, n: nat, vars: Ast.Store)
    requires Ast.WellFormed(Ast.Compound(ss), loop)
    ensures Ast.Exec(Ast.Compound(ss), loop, n, vars) == Ast.ExecList(ss, loop, n, vars)
  {
  }

  // ---- if ----

  lemma IfImplements(g: Graph, s: Ast.Stmt, loop: Ast.LoopKind, p: Point, r0: nat, q: Point, w: Val, x: nat, y: nat, qx: Point, qy: Point, exit: nat, brk: nat, cont: nat)
    requires s.If? && Ast.WellFormed(s, loop)
    requires Decides(g, s.cond, p, r0, q, w) && EndsBlock(g, q, CondBr(w, x, y))
    requires Implements(g, s.thn, loop, Point(x, 0), qx, brk, cont) && EndsBlock(g, qx, Br(exit))
    requires if s.els.Some? then Implements(g, s.els.value, loop, Point(y, 0), qy, brk, cont) && EndsBlock(g, qy, Br(exit)) else y == exit
    ensures Implements(g, s, loop, p, Point(exit, 0), brk, cont)
  {
    forall m: Machine, n: nat
      ensures Behaves(g, s, loop, p, Point(exit, 0), brk, cont, m, n)
    {
      IfExec(s, loop, n, m.vars);
      hide Ast.Exec, Ast.Eval, Ast.WellFormed, Matches, Ast.WellFormedExpr, EndsBlock;
      var m' := DecidesThenBranch(g, s.cond, p, r0, q, w, x, y, m);
      var r := Ast.Exec(s, loop, n, m.vars);
      if Ast.Eval(s.cond, m.vars).value != 0 {
        assert Behaves(g, s.thn, loop, Point(x, 0), qx, brk, cont, m', n);
        MatchesThenJump(g, r, Point(x, 0), m', qx, exit, brk, cont, n);
        MatchesAfter(g, r, p, m, Point(x, 0), m', Point(exit, 0), brk, cont, n, n);
      } else if s.els.Some? {
        assert Behaves(g, s.els.value, loop, Point(y, 0), qy, brk, cont, m', n);
        MatchesThenJump(g, r, Point(y, 0), m', qy, exit, brk, cont, n);
        MatchesAfter(g, r, p, m, Point(y, 0), m', Point(exit, 0), brk, cont, n, n);
      } else {
        ArrivesMatches(g, p, m, Point(exit, 0), m', brk, cont, n);
      }
    }
  }

  lemma ArrivesMatches(g: Graph, p: Point, m: Machine, q: Point, m': Machine, brk: nat, cont: nat, n: nat)
    requires Reaches(g, p, m, q, m')
    ensures Matches(g, Ast.Normal(m'.vars), p, m, q, brk, cont, n)
  {
  }

  lemma IfExec(s: Ast.Stmt, loop: Ast.LoopKind, n: nat, vars: Ast.Store)
    requires s.If? && Ast.WellFormed(s, loop)
    ensures var o := Ast.Eval(s.cond, vars);
            Ast.Exec(s, loop, n, vars) == if o.value != 0 then Ast.Exec(s.thn, loop, n, o.store)
                                          else if s.els.Some? then Ast.Exec(s.els.value, loop, n, o.store)
                                          else Ast.Normal(o.store)
  {
  }

  // ---- loops ----

  /** The blocks of a loop: a condition that leads to the body or out, and a body (and step) that leads back to the condition. */
  datatype Shape = Shape(cond: nat, body: nat, exit: nat, r0: nat, condEnd: Point, w: Val, bodyEnd: Point, end: Point)

  ghost predicate HasShape(g: Graph, s: Ast.Stmt, loop: Ast.LoopKind, h: Shape)
    requires Ast.IsLoop(s) && Ast.WellFormed(s, loop)
  {
    && h.cond != h.body
    && HasGuard(g, Ast.Guard(s), h)
    && Implements(g, s.body, Ast.LoopKindOf(s), Point(h.body, 0), h.bodyEnd, h.exit, h.cond)
    && (if s.For? then Implements(g, s.step, Ast.NoLoop, h.bodyEnd, h.end, h.exit, h.cond) else h.end == h.bodyEnd)
    && EndsBlock(g, h.end, Br(h.cond))
  }

  ghost predicate HasGuard(g: Graph, guard: Option<Ast.Expr>, h: Shape)
    requires Ast.WellFormedOpt(guard)
  {
    if guard.Some? then
      Decides(g, guard.value, Point(h.cond, 0), h.r0, h.condEnd, h.w) && EndsBlock(g, h.condEnd, CondBr(h.w, h.body, h.exit))
    else
      EndsBlock(g, Point(h.cond, 0), Br(h.body))
  }

  ghost predicate Rounds(g: Graph, s: Ast.Stmt, loop: Ast.LoopKind, h: Shape, brk: nat, cont: nat, m: Machine, n: nat, test: bool)
    requires Ast.IsLoop(s) && Ast.WellFormed(s, loop)
  {
    Matches(g, Ast.ExecLoop(s, loop, n, m.vars, test), Point(if test then h.cond else h.body, 0), m, Point(h.exit, 0), brk, cont, n)
  }

  lemma {:induction false} LoopRuns(g: Graph, s: Ast.Stmt, loop: Ast.LoopKind, h: Shape, brk: nat, cont: nat, m: Machine, n: nat, test: bool)
    requires Ast.IsLoop(s) && Ast.WellFormed(s, loop) && HasShape(g, s, loop, h)
    ensures Rounds(g, s, loop, h, brk, cont, m, n, test)
    decreases n, test
  {
    hide Ast.Exec, Ast.ExecLoop, Ast.WellFormed, Ast.Eval, Ast.WellFormedExpr, Matches, Implements, EndsBlock, Decides, Reaches;
    if test {
      TestRuns(g, s, loop, h, brk, cont, m, n);
    } else if n == 0 {
      LoopTimeout(g, s, loop, h, brk, cont, m);
    } else {
      BodyRuns(g, s, loop, h, brk, cont, m, n);
    }
  }

  lemma LoopTimeout(g: Graph, s: Ast.Stmt, loop: Ast.LoopKind, h: Shape, brk: nat, cont: nat, m: Machine)
    requires Ast.IsLoop(s) && Ast.WellFormed(s, loop)
    ensures Rounds(g, s, loop, h, brk, cont, m, 0, false)
  {
    assert Ast.ExecLoop(s, loop, 0, m.vars, false) == Ast.Timeout;
  }

  lemma TestExec(s: Ast.Stmt, loop: Ast.LoopKind, n: nat, vars: Ast.Store)
    requires Ast.IsLoop(s) && Ast.WellFormed(s, loop)
    ensures Ast.WellFormedOpt(Ast.Guard(s))
    ensures Ast.ExecLoop(s, loop, n, vars, true) ==
            if Ast.Guard(s).None? then Ast.ExecLoop(s, loop, n, vars, false)
            else
              var o := Ast.Eval(Ast.Guard(s).value, vars);
              if o.value == 0 then Ast.Normal(o.store) else Ast.ExecLoop(s, loop, n, o.store, false)
  {
  }

  lemma TestRuns(g: Graph, s: Ast.Stmt, loop: Ast.LoopKind, h: Shape, brk: nat, cont: nat, m: Machine, n: nat)
    requires Ast.IsLoop(s) && Ast.WellFormed(s, loop) && HasShape(g, s, loop, h)
    ensures Rounds(g, s, loop, h, brk, cont, m, n, true)
    decreases n, true, 0
  {
    TestExec(s, loop, n, m.vars);
    hide Ast.Exec, Ast.ExecLoop, Ast.WellFormed, Ast.Eval, Ast.WellFormedExpr, Matches, Implements, Decides, Reaches, Ast.Guard;
    var guard, p, b, q := Ast.Guard(s), Point(h.cond, 0), Point(h.body, 0), Point(h.exit, 0);
    if guard.None? {
      Jump(g, p, m);
      LoopRuns(g, s, loop, h, brk, cont, m, n, false);
      MatchesAfter(g, Ast.ExecLoop(s, loop, n, m.vars, false), p, m, b, m, q, brk, cont, n, n);
    } else {
      var m' := DecidesThenBranch(g, guard.value, p, h.r0, h.condEnd, h.w, h.body, h.exit, m);
      if Ast.Eval(guard.value, m.vars).value == 0 {
        ArrivesMatches(g, p, m, q, m', brk, cont, n);
      } else {
        LoopRuns(g, s, loop, h, brk, cont, m', n, false);
        MatchesAfter(g, Ast.ExecLoop(s, loop, n, m'.vars, false), p, m, b, m', q, brk, cont, n, n);
      }
    }
  }

  /** How a round of the loop body decides what comes next. */
  lemma BodyExec(s: Ast.Stmt, loop: Ast.LoopKind, n: nat, vars: Ast.Store)
    requires Ast.IsLoop(s) && Ast.WellFormed(s, loop) && n > 0
    ensures Ast.WellFormed(s.body, Ast.LoopKindOf(s)) && (s.For? ==> Ast.WellFormed(s.step, Ast.NoLoop))
    ensures var r, l := Ast.Exec(s.body, Ast.LoopKindOf(s), n, vars), Ast.ExecLoop(s, loop, n, vars, false);
            match r
            case Returned(_, _) => l == r
            case Timeout => l == r
            case Broke(vars') => l == Ast.Normal(vars')
            case Normal(vars') =>
              if s.For? then
                Ast.Exec(s.step, Ast.NoLoop, n, vars').Normal? && l == Ast.ExecLoop(s, loop, n - 1, Ast.Exec(s.step, Ast.NoLoop, n, vars').store, true)
              else l == Ast.ExecLoop(s, loop, n - 1, vars', true)
            case Continued(vars') => l == Ast.ExecLoop(s, loop, n - 1, vars', true)
  {
    var r := Ast.Exec(s.body, Ast.LoopKindOf(s), n, vars);
    if s.For? && r.Normal? {
      assert Ast.Exec(s.step, Ast.NoLoop, n, r.store).Normal?;
    }
  }

  lemma BodyRuns(g: Graph, s: Ast.Stmt, loop: Ast.LoopKind, h: Shape, brk: nat, cont: nat, m: Machine, n: nat)
    requires Ast.IsLoop(s) && Ast.WellFormed(s, loop) && HasShape(g, s, loop, h) && n > 0
    ensures Rounds(g, s, loop, h, brk, cont, m, n, false)
    decreases n, false, 0
  {
    BodyExec(s, loop, n, m.vars);
    hide Ast.Exec, Ast.ExecLoop, Ast.WellFormed, Ast.Eval, Decides, Reaches, Ast.Guard, HasGuard, EndsBlock, Halts, KeepsRunning;
    var r := Ast.Exec(s.body, Ast.LoopKindOf(s), n, m.vars);
    var p, back := Point(h.body, 0), Point(h.cond, 0);
    assert Behaves(g, s.body, Ast.LoopKindOf(s), p, h.bodyEnd, h.exit, h.cond, m, n);
    if r.Normal? || r.Continued? {
      var m' := NextRound(g, s, loop, h, m, n);
      LoopRuns(g, s, loop, h, brk, cont, m', n - 1, true);
      MatchesAfter(g, Ast.ExecLoop(s, loop, n - 1, m'.vars, true), p, m, back, m', Point(h.exit, 0), brk, cont, n - 1, n);
    }
  }

  /** A round that does not leave the loop comes back to the condition. */
  lemma NextRound(g: Graph, s: Ast.Stmt, loop: Ast.LoopKind, h: Shape, m: Machine, n: nat) returns (m': Machine)
    requires Ast.IsLoop(s) && Ast.WellFormed(s, loop) && HasShape(g, s, loop, h) && n > 0
    requires var r := Ast.Exec(s.body, Ast.LoopKindOf(s), n, m.vars); r.Normal? || r.Continued?
    ensures Reaches(g, Point(h.body, 0), m, Point(h.cond, 0), m')
    ensures Ast.ExecLoop(s, loop, n, m.vars, false) == Ast.ExecLoop(s, loop, n - 1, m'.vars, true)
  {
    BodyExec(s, loop, n, m.vars);
    hide Ast.Exec, Ast.ExecLoop, Ast.WellFormed, Ast.Eval, Decides, Reaches, Ast.Guard, HasGuard;
    var r := Ast.Exec(s.body, Ast.LoopKindOf(s), n, m.vars);
    var p, back := Point(h.body, 0), Point(h.cond, 0);
    assert Behaves(g, s.body, Ast.LoopKindOf(s), p, h.bodyEnd, h.exit, h.cond, m, n);
    if r.Continued? {
      m' :| Reaches(g, p, m, back, m') && m'.vars == r.store;
    } else {
      m' :| Reaches(g, p, m, h.bodyEnd, m') && m'.vars == r.store;
      if s.For? {
        assert Behaves(g, s.step, Ast.NoLoop, h.bodyEnd, h.end, h.exit, h.cond, m', n);
        var m1 := m';
        var t := Ast.Exec(s.step, Ast.NoLoop, n, m1.vars);
        m' :| Reaches(g, h.bodyEnd, m1, h.end, m') && m'.vars == t.store;
        ReachesTransitive(g, p, m, h.bodyEnd, m1, h.end, m');
      }
      Jump(g, h.end, m');
      ReachesTransitive(g, p, m, h.end, m', back, m');
    }
  }

  /** A loop entered by a jump: `do` at its body, `while` at its condition, `for` after its first clause. */
  lemma LoopImplements(g: Graph, s: Ast.Stmt, loop: Ast.LoopKind, p: Point, start: Point, h: Shape, brk: nat, cont: nat)
    requires Ast.IsLoop(s) && Ast.WellFormed(s, loop) && HasShape(g, s, loop, h)
    requires EndsBlock(g, start, Br(if s.Do? then h.body else h.cond))
    requires if s.For? then Implements(g, s.first, Ast.NoLoop, p, start, brk, cont) else p == start
    ensures Implements(g, s, loop, p, Point(h.exit, 0), brk, cont)
  {
    forall m: Machine, n: nat
      ensures Behaves(g, s, loop, p, Point(h.exit, 0), brk, cont, m, n)
    {
      LoopEntered(g, s, loop, p, start, h, brk, cont, m, n);
    }
  }

  lemma LoopExec(s: Ast.Stmt, loop: Ast.LoopKind, n: nat, vars: Ast.Store)
    requires Ast.IsLoop(s) && Ast.WellFormed(s, loop)
    ensures s.For? ==> Ast.WellFormed(s.first, Ast.NoLoop) && Ast.Exec(s.first, Ast.NoLoop, n, vars).Normal?
    ensures Ast.Exec(s, loop, n, vars) ==
            Ast.ExecLoop(s, loop, n, if s.For? then Ast.Exec(s.first, Ast.NoLoop, n, vars).store else vars, !s.Do?)
  {
    if s.For? {
      assert Ast.Exec(s.first, Ast.NoLoop, n, vars).Normal?;
    }
  }

  lemma LoopEntered(g: Graph, s: Ast.Stmt, loop: Ast.LoopKind, p: Point, start: Point, h: Shape, brk: nat, cont: nat, m: Machine, n: nat)
    requires Ast.IsLoop(s) && Ast.WellFormed(s, loop) && HasShape(g, s, loop, h)
    requires EndsBlock(g, start, Br(if s.Do? then h.body else h.cond))
    requires if s.For? then Ast.WellFormed(s.first, Ast.NoLoop) && Implements(g, s.first, Ast.NoLoop, p, start, brk, cont) else p == start
    ensures Behaves(g, s, loop, p, Point(h.exit, 0), brk, cont, m, n)
  {
    LoopExec(s, loop, n, m.vars);
    hide Ast.Exec, Ast.ExecLoop, Ast.WellFormed, Ast.Eval, Decides, Reaches, Ast.Guard, HasShape;
    var m' := m;
    if s.For? {
      assert Behaves(g, s.first, Ast.NoLoop, p, start, brk, cont, m, n);
      var r := Ast.Exec(s.first, Ast.NoLoop, n, m.vars);
      m' :| Reaches(g, p, m, start, m') && m'.vars == r.store;
    } else {
      ReachesSelf(g, p, m);
    }
    var entry := Point(if s.Do? then h.body else h.cond, 0);
    Jump(g, start, m');
    ReachesTransitive(g, p, m, start, m', entry, m');
    LoopRuns(g, s, loop, h, brk, cont, m', n, !s.Do?);
    MatchesAfter(g, Ast.ExecLoop(s, loop, n, m'.vars, !s.Do?), p, m, entry, m', Point(h.exit, 0), brk, cont, n, n);
  }

  // ---- whole functions ----

  /** Only a `while` loop lets `break` and `continue` out. */
  lemma {:induction false} StaysInside(s: Ast.Stmt, loop: Ast.LoopKind, n: nat, vars: Ast.Store)
    requires Ast.WellFormed(s, loop) && !loop.WhileLoop?
    ensures var r := Ast.Exec(s, loop, n, vars); !r.Broke? && !r.Continued?
    decreases s, 1
  {
    match s
    case Compound(ss) => ListStaysInside(ss, loop, n, vars);
    case If(c, thn, els) =>
      var o := Ast.Eval(c, vars);
      StaysInside(thn, loop, n, o.store);
      if els.Some? {
        StaysInside(els.value, loop, n, o.store);
      }
    case Do(_, _, _) => LoopStaysInside(s, loop, n, vars, false);
    case While(_, _, _) => LoopStaysInside(s, loop, n, vars, true);
    case For(_, first, _, _, _) =>
      LoopExec(s, loop, n, vars);
      LoopStaysInside(s, loop, n, Ast.Exec(first, Ast.NoLoop, n, vars).store, true);
    case _ =>
  }

  lemma {:induction false} ListStaysInside(ss: seq<Ast.Stmt>, loop: Ast.LoopKind, n: nat, vars: Ast.Store)
    requires (forall k :: 0 <= k < |ss| ==> Ast.WellFormed(ss[k], loop)) && !loop.WhileLoop?
    ensures var r := Ast.ExecList(ss, loop, n, vars); !r.Broke? && !r.Continued?
    decreases ss, 0
  {
    if ss != [] {
      StaysInside(ss[0], loop, n, vars);
      var r := Ast.Exec(ss[0], loop, n, vars);
      if r.Normal? {
        ListStaysInside(ss[1..], loop, n, r.store);
      }
    }
  }

  lemma {:induction false} LoopStaysInside(s: Ast.Stmt, loop: Ast.LoopKind, n: nat, vars: Ast.Store, test: bool)
    requires Ast.IsLoop(s) && Ast.WellFormed(s, loop)
    ensures var r := Ast.ExecLoop(s, loop, n, vars, test); !r.Broke? && !r.Continued?
    decreases n, test
  {
    hide Ast.Exec, Ast.Eval;
    if test {
      TestExec(s, loop, n, vars);
      if Ast.Guard(s).None? {
        LoopStaysInside(s, loop, n, vars, false);
      } else {
        LoopStaysInside(s, loop, n, Ast.Eval(Ast.Guard(s).value, vars).store, false);
      }
    } else if n > 0 {
      BodyExec(s, loop, n, vars);
      var r := Ast.Exec(s.body, Ast.LoopKindOf(s), n, vars);
      if r.Continued? {
        LoopStaysInside(s, loop, n - 1, r.store, true);
      } else if r.Normal? {
        LoopStaysInside(s, loop, n - 1, if s.For? then Ast.Exec(s.step, Ast.NoLoop, n, r.store).store else r.store, true);
      }
    }
  }

  /** The statement ends normally with `vars`, given enough rounds. */
  ghost predicate Completes(s: Ast.Stmt, vars: Ast.Store, vars': Ast.Store)
    requires Ast.WellFormed(s, Ast.NoLoop)
  {
    exists n: nat :: Ast.Exec(s, Ast.NoLoop, n, vars) == Ast.Normal(vars')
  }

  ghost predicate Returns(s: Ast.Stmt, vars: Ast.Store, v: Option<int>, vars': Ast.Store)
    requires Ast.WellFormed(s, Ast.NoLoop)
  {
    exists n: nat :: Ast.Exec(s, Ast.NoLoop, n, vars) == Ast.Returned(v, vars')
  }

  ghost predicate Stuck(g: Graph, q: Point) {
    EndsBlock(g, q, Incomplete)
  }

  /** Both directions: the machine does what the statement does, and nothing else. */
  lemma RunsExactly(g: Graph, s: Ast.Stmt, p: Point, q: Point, m: Machine)
    requires Ast.WellFormed(s, Ast.NoLoop) && Implements(g, s, Ast.NoLoop, p, q, 0, 0) && Stuck(g, q)
    ensures forall vars :: Completes(s, m.vars, vars) <==> Arrives(g, p, m, q, vars)
    ensures forall v, vars :: Returns(s, m.vars, v, vars) <==> Halts(g, p, m, v, vars)
  {
    hide Ast.Exec, Ast.WellFormed, Run;
    forall vars | Completes(s, m.vars, vars)
      ensures Arrives(g, p, m, q, vars)
    {
      var n: nat :| Ast.Exec(s, Ast.NoLoop, n, m.vars) == Ast.Normal(vars);
      assert Behaves(g, s, Ast.NoLoop, p, q, 0, 0, m, n);
    }
    forall v, vars | Returns(s, m.vars, v, vars)
      ensures Halts(g, p, m, v, vars)
    {
      var n: nat :| Ast.Exec(s, Ast.NoLoop, n, m.vars) == Ast.Returned(v, vars);
      assert Behaves(g, s, Ast.NoLoop, p, q, 0, 0, m, n);
    }
    forall vars | Arrives(g, p, m, q, vars)
      ensures Completes(s, m.vars, vars)
    {
      var m' :| Reaches(g, p, m, q, m') && m'.vars == vars;
      var k: nat :| Run(g, k, At(p.b, p.pc, m)) == Some(At(q.b, q.pc, m'));
      EndsAsRun(g, s, p, q, m, k, At(q.b, q.pc, m'));
    }
    forall v, vars | Halts(g, p, m, v, vars)
      ensures Returns(s, m.vars, v, vars)
    {
      var k: nat :| Run(g, k, At(p.b, p.pc, m)) == Some(Halt(v, vars));
      EndsAsRun(g, s, p, q, m, k, Halt(v, vars));
    }
  }

  /** A run that stops tells how the statement ends. */
  lemma EndsAsRun(g: Graph, s: Ast.Stmt, p: Point, q: Point, m: Machine, k: nat, c: Conf)
    requires Ast.WellFormed(s, Ast.NoLoop) && Implements(g, s, Ast.NoLoop, p, q, 0, 0) && Stuck(g, q)
    requires Run(g, k, At(p.b, p.pc, m)) == Some(c) && (c.Halt? || (c.b == q.b && c.pc == q.pc))
    ensures c.At? ==> Completes(s, m.vars, c.m.vars)
    ensures c.Halt? ==> Returns(s, m.vars, c.v, c.vars)
  {
    hide Ast.Exec, Ast.WellFormed, Run;
    var start, n := At(p.b, p.pc, m), k + 1;
    var r := Ast.Exec(s, Ast.NoLoop, n, m.vars);
    assert Behaves(g, s, Ast.NoLoop, p, q, 0, 0, m, n);
    StaysInside(s, Ast.NoLoop, n, m.vars);
    assert Step(g, c).None?;
    match r {
      case Timeout =>
        StuckOnce(g, k, n, start);
      case Normal(vars) =>
        var m' :| Reaches(g, p, m, q, m') && m'.vars == vars;
        var i: nat :| Run(g, i, start) == Some(At(q.b, q.pc, m'));
        StuckOnce(g, k, i, start);
        StuckOnce(g, i, k, start);
      case Returned(v, vars) =>
        var i: nat :| Run(g, i, start) == Some(Halt(v, vars));
        StuckOnce(g, k, i, start);
        StuckOnce(g, i, k, start);
      case _ =>
    }
  }
}
