/** The source language: expressions with side effects, and statements, with their meaning. */
module Ast {
  import opened Int32
  import opened Options

  datatype UnaryOp = Pos | Neg | Not | Inv

  datatype BinaryOp =
    | Assign
    | Add | Sub | Mul | Div | Mod
    | And | Or | Xor
    | LAnd | LOr
    | LT | LE | GT | GE | EQ | NE
    | Shl | Shr

  datatype Expr =
    | Num(n: int)
    | Var(x: nat)
    | Unary(uop: UnaryOp, e: Expr)
    | Binary(op: BinaryOp, lhs: Expr, rhs: Expr)
    | Paren(inner: Expr)
    | Comma(es: seq<Expr>)

  /** Loops carry an identity, which `break` and `continue` refer to. */
  datatype Stmt =
    | Null
    | ExprStmt(e: Expr)
    | Decl(x: nat, init: Option<Expr>)
    | Compound(ss: seq<Stmt>)
    | If(cond: Expr, thn: Stmt, els: Option<Stmt>)
    | Do(id: nat, body: Stmt, cond: Expr)
    | While(id: nat, cond: Expr, body: Stmt)
    | For(id: nat, first: Stmt, guard: Option<Expr>, step: Stmt, body: Stmt)
    | Break(parent: nat)
    | Continue(parent: nat)
    | Return(ret: Option<Expr>)

  // ---- meaning of expressions ----

  type Store = map<nat, int>

  function Get(s: Store, x: nat): int {
    if x in s then s[x] else 0
  }

  function UnaryValue(op: UnaryOp, a: int): int {
    match op
    case Pos => a
    case Neg => Wrap(-a)
    case Not => Truth(a == 0)
    case Inv => BitXor(a, -1)
  }

  /** Operators that evaluate both operands and have no effect. */
  function BinaryValue(op: BinaryOp, a: int, b: int): int {
    match op
    case Add => Wrap(a + b)
    case Sub => Wrap(a - b)
    case Mul => Wrap(a * b)
    case Div => Wrap(TruncDiv(a, b))
    case Mod => Wrap(TruncRem(a, b))
    case And => BitAnd(a, b)
    case Or => BitOr(a, b)
    case Xor => BitXor(a, b)
    case LT => Truth(a < b)
    case LE => Truth(a <= b)
    case GT => Truth(a > b)
    case GE => Truth(a >= b)
    case EQ => Truth(a == b)
    case NE => Truth(a != b)
    case Shl => ShiftLeft(a, b)
    case Shr => ShiftRight(a, b)
    case Assign => b
    case LAnd => Truth(a != 0 && b != 0)
    case LOr => Truth(a != 0 || b != 0)
  }

  predicate IsLValue(e: Expr) {
    match e
    case Var(_) => true
    case Paren(inner) => IsLValue(inner)
    case Binary(op, lhs, _) => op == Assign && IsLValue(lhs)
    case Comma(es) => es != [] && IsLValue(es[|es| - 1])
    case _ => false
  }

  /** The variable an l-value designates. */
  function Target(e: Expr): nat
    requires IsLValue(e)
  {
    match e
    case Var(x) => x
    case Paren(inner) => Target(inner)
    case Binary(_, lhs, _) => Target(lhs)
    case Comma(es) => Target(es[|es| - 1])
  }

  /** Assignments have an l-value on the left, and comma lists are not empty. */
  predicate WellFormedExpr(e: Expr) {
    match e
    case Num(_) => true
    case Var(_) => true
    case Unary(_, a) => WellFormedExpr(a)
    case Binary(op, lhs, rhs) => WellFormedExpr(lhs) && WellFormedExpr(rhs) && (op == Assign ==> IsLValue(lhs))
    case Paren(inner) => WellFormedExpr(inner)
    case Comma(es) => es != [] && forall k :: 0 <= k < |es| ==> WellFormedExpr(es[k])
  }

  datatype Outcome = Outcome(value: int, store: Store)

  /** Left operand first; the right operand of `&&` and `||` only when the left one does not decide. */
  function Eval(e: Expr, s: Store): Outcome
    requires WellFormedExpr(e)
  {
    match e
    case Num(n) => Outcome(n, s)
    case Var(x) => Outcome(Get(s, x), s)
    case Unary(op, a) =>
      var r := Eval(a, s);
      Outcome(UnaryValue(op, r.value), r.store)
    case Binary(op, lhs, rhs) =>
      var l := Eval(lhs, s);
      if op == LAnd && l.value == 0 then Outcome(0, l.store)
      else if op == LOr && l.value != 0 then Outcome(1, l.store)
      else
        var r := Eval(rhs, l.store);
        if op == Assign then Outcome(r.value, r.store[Target(lhs) := r.value])
        else Outcome(BinaryValue(op, l.value, r.value), r.store)
    case Paren(inner) => Eval(inner, s)
    case Comma(es) => EvalList(es, s)
  }

  function EvalList(es: seq<Expr>, s: Store): Outcome
    requires es != [] && forall k :: 0 <= k < |es| ==> WellFormedExpr(es[k])
  {
    if |es| == 1 then Eval(es[0], s)
    else EvalList(es[1..], Eval(es[0], s).store)
  }

  // ---- meaning of statements ----

  /** How a statement ends; `Timeout` says that some loop used up the given number of rounds. */
  datatype Result =
    | Normal(store: Store)
    | Broke(store: Store)
    | Continued(store: Store)
    | Returned(value: Option<int>, store: Store)
    | Timeout

  datatype LoopKind = NoLoop | WhileLoop(id: nat) | OtherLoop

  function LoopIds(s: Stmt): set<nat> {
    match s
    case Compound(ss) => LoopIdsOf(ss)
    case If(_, thn, els) => LoopIds(thn) + (if els.Some? then LoopIds(els.value) else {})
    case Do(id, body, _) => {id} + LoopIds(body)
    case While(id, _, body) => {id} + LoopIds(body)
    case For(id, first, _, step, body) => {id} + LoopIds(first) + LoopIds(step) + LoopIds(body)
    case _ => {}
  }

  function LoopIdsOf(ss: seq<Stmt>): set<nat> {
    if ss == [] then {} else LoopIds(ss[0]) + LoopIdsOf(ss[1..])
  }

  predicate WellFormedOpt(e: Option<Expr>) {
    e.Some? ==> WellFormedExpr(e.value)
  }

  /**
   What the diagnosis accepts: `break` and `continue` refer to the innermost loop, which
   must be a `while` loop. A loop is not nested in itself.
   */
  predicate WellFormed(s: Stmt, loop: LoopKind) {
    match s
    case Null => true
    case ExprStmt(e) => WellFormedExpr(e)
    case Decl(_, init) => WellFormedOpt(init)
    case Compound(ss) => forall k :: 0 <= k < |ss| ==> WellFormed(ss[k], loop)
    case If(c, thn, els) => WellFormedExpr(c) && WellFormed(thn, loop) && (els.Some? ==> WellFormed(els.value, loop))
    case Do(id, body, c) => id !in LoopIds(body) && WellFormed(body, OtherLoop) && WellFormedExpr(c)
    case While(id, c, body) => id !in LoopIds(body) && WellFormedExpr(c) && WellFormed(body, WhileLoop(id))
    case For(id, first, guard, step, body) =>
      && (first.Null? || first.ExprStmt? || first.Decl?) && WellFormed(first, NoLoop)
      && (step.Null? || step.ExprStmt?) && WellFormed(step, NoLoop)
      && WellFormedOpt(guard)
      && id !in LoopIds(body) && WellFormed(body, OtherLoop)
    case Break(parent) => loop == WhileLoop(parent)
    case Continue(parent) => loop == WhileLoop(parent)
    case Return(e) => WellFormedOpt(e)
  }

  /** Run `s` with at most `fuel` rounds for every loop execution. */
  function Exec(s: Stmt, loop: LoopKind, fuel: nat, st: Store): Result
    requires WellFormed(s, loop)
    decreases s, fuel, 3
  {
    match s
    case Null => Normal(st)
    case ExprStmt(e) => Normal(Eval(e, st).store)
    case Decl(x, init) =>
      if init.None? then Normal(st)
      else
        var r := Eval(init.value, st);
        Normal(r.store[x := r.value])
    case Compound(ss) => ExecList(ss, loop, fuel, st)
    case If(c, thn, els) =>
      var r := Eval(c, st);
      if r.value != 0 then Exec(thn, loop, fuel, r.store)
      else if els.Some? then Exec(els.value, loop, fuel, r.store)
      else Normal(r.store)
    case Do(id, body, c) => ExecLoop(s, loop, fuel, st, false)
    case While(id, c, body) => ExecLoop(s, loop, fuel, st, true)
    case For(id, first, guard, step, body) =>
      var r := Exec(first, NoLoop, fuel, st);
      if r.Normal? then ExecLoop(s, loop, fuel, r.store, true) else r
    case Break(_) => Broke(st)
    case Continue(_) => Continued(st)
    case Return(e) =>
      if e.None? then Returned(None, st)
      else
        var r := Eval(e.value, st);
        Returned(Some(r.value), r.store)
  }

  function ExecList(ss: seq<Stmt>, loop: LoopKind, fuel: nat, st: Store): Result
    requires forall k :: 0 <= k < |ss| ==> WellFormed(ss[k], loop)
    decreases ss, fuel, 0
  {
    if ss == [] then Normal(st)
    else
      var r := Exec(ss[0], loop, fuel, st);
      if r.Normal? then ExecList(ss[1..], loop, fuel, r.store) else r
  }

  predicate IsLoop(s: Stmt) {
    s.Do? || s.While? || s.For?
  }

  function LoopKindOf(s: Stmt): LoopKind
    requires IsLoop(s)
  {
    if s.While? then WhileLoop(s.id) else OtherLoop
  }

  function Guard(s: Stmt): Option<Expr>
    requires IsLoop(s)
  {
    if s.For? then s.guard else Some(s.cond)
  }

  /** The rounds of a loop; `test` says whether the condition comes next, or the body. */
  function ExecLoop(s: Stmt, loop: LoopKind, fuel: nat, st: Store, test: bool): Result
    requires IsLoop(s) && WellFormed(s, loop)
    decreases s, fuel, if test then 2 else 1
  {
    if test then
      if Guard(s).None? then ExecLoop(s, loop, fuel, st, false)
      else
        var r := Eval(Guard(s).value, st);
        if r.value == 0 then Normal(r.store) else ExecLoop(s, loop, fuel, r.store, false)
    else if fuel == 0 then Timeout
    else
      var r := Exec(s.body, LoopKindOf(s), fuel, st);
      match r
      case Returned(_, _) => r
      case Timeout => r
      case Broke(st') => Normal(st')
      case Normal(st') =>
        if s.For? then
          var t := Exec(s.step, NoLoop, fuel, st');
          if t.Normal? then ExecLoop(s, loop, fuel - 1, t.store, true) else t
        else ExecLoop(s, loop, fuel - 1, st', true)
      case Continued(st') => ExecLoop(s, loop, fuel - 1, st', true)
  }
}
