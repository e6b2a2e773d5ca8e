/** Which inputs the two-stack parser turns into legal expressions. */
module ParserAcceptance {
  import opened Options
  import opened Ast
  import opened BinaryGrammar
  import opened LayeredGrammar
  import opened OperatorStacks

  /** Where the run of equal operators that contains operator `i` begins. */
  function RunStart(ops: seq<BinaryOp>, i: nat): (a: nat)
    requires i < |ops|
    ensures a <= i
  {
    if i > 0 && ops[i - 1] == ops[i] then RunStart(ops, i - 1) else i
  }

  /** Where balancing may begin: not at an operand that the operator before the run claims. */
  function FreeStart(ops: seq<BinaryOp>, i: nat): (f: nat)
    requires i < |ops|
    ensures RunStart(ops, i) <= f <= RunStart(ops, i) + 1
  {
    var a := RunStart(ops, i);
    if a > 0 && Priority(ops[a - 1]) <= Priority(ops[i]) then a + 1 else a
  }

  lemma {:induction false} RunStartRange(ops: seq<BinaryOp>, i: nat)
    requires i < |ops|
    ensures var a := RunStart(ops, i); (forall x :: a <= x <= i ==> ops[x] == ops[i]) && (a > 0 ==> ops[a - 1] != ops[i])
  {
    if i > 0 && ops[i - 1] == ops[i] {
      RunStartRange(ops, i - 1);
    }
  }

  lemma {:induction false} RunStartIs(ops: seq<BinaryOp>, a: nat, i: nat)
    requires a <= i < |ops| && (forall x :: a <= x <= i ==> ops[x] == ops[i]) && (a > 0 ==> ops[a - 1] != ops[i])
    ensures RunStart(ops, i) == a
    decreases i
  {
    if a < i {
      assert ops[i - 1] == ops[i];
      RunStartIs(ops, a, i - 1);
    }
  }

  /** The operand before operator `j` has been swallowed by a balanced run. */
  predicate EndsBalanced(ops: seq<BinaryOp>, j: nat)
    requires j < |ops|
  {
    j > 0 && Swappable(ops[j - 1]) && FreeStart(ops, j - 1) < j - 1
  }

  /** What the two-stack parser demands of the assignment at `j`. */
  predicate Fits(operands: seq<Expr>, ops: seq<BinaryOp>, j: nat)
    requires |operands| == |ops| + 1 && j < |ops|
  {
    IsLValue(operands[j]) && !EndsBalanced(ops, j)
  }

  ghost predicate AllFit(operands: seq<Expr>, ops: seq<BinaryOp>, lo: nat)
    requires Chain(operands, ops)
  {
    forall j :: lo <= j < |ops| && ops[j] == Assign ==> Fits(operands, ops, j)
  }

  /** A legal input fits. */
  lemma LegalFits(operands: seq<Expr>, ops: seq<BinaryOp>)
    requires Chain(operands, ops) && LegalAssignments(operands, ops, 0, |ops|)
    ensures AllFit(operands, ops, 0)
  {
    forall j | 0 <= j < |ops| && ops[j] == Assign
      ensures Fits(operands, ops, j)
    {
      assert IsLValue(operands[j]);
      assert j > 0 ==> ops[j - 1] == Assign;
    }
  }

  /** But not only legal inputs do: in `a + b = c` the assignment does not wait for the addition. */
  lemma FitsThoughIllegal(a: nat, b: nat, c: nat)
    ensures var operands, ops := [Var(a), Var(b), Var(c)], [Add, Assign];
            && Chain(operands, ops) && OperandsWellFormed(operands)
            && AllFit(operands, ops, 0) && !LegalAssignments(operands, ops, 0, 2)
            && !WellFormedExpr(ToExpr(Grouping(operands, ops, 0, 2)))
  {
    var operands, ops := [Var(a), Var(b), Var(c)], [Add, Assign];
    forall j | 0 <= j < |ops| && ops[j] == Assign
      ensures Fits(operands, ops, j)
    {
      assert j == 1;
    }
    assert ops[1] == Assign && ops[0] != Assign;
    IllegalAfterOther(operands, ops, 0, 2, 1);
    LegalExactly(operands, ops, 0, 2);
  }

  /** The only legal tree for this input assigns to `b` first. */
  lemma AssignsFirst(t: Tree, a: nat, b: nat, c: nat)
    requires Leaves(t) == [Var(a), Var(b), Var(c)] && Operators(t) == [Add, Assign] && WellFormedExpr(ToExpr(t))
    ensures t == Node(Add, Leaf(Var(a)), Node(Assign, Leaf(Var(b)), Leaf(Var(c))))
  {
    var operands, ops := [Var(a), Var(b), Var(c)], [Add, Assign];
    assert operands[0..3] == operands && ops[0..2] == ops;
    assert Spells(t, operands, ops, 0, 2) && t.Node?;
    var k := |Operators(t.l)|;
    LeavesCount(t.l);
    SpellsParts(t, operands, ops, 0, k, 2);
    if k == 0 {
      SingleLeaf(t.l, operands, ops, 0);
      LeavesCount(t.r.l);
      SpellsParts(t.r, operands, ops, 1, 1, 2);
      SingleLeaf(t.r.l, operands, ops, 1);
      SingleLeaf(t.r.r, operands, ops, 2);
    } else {
      SpellsParts(t.l, operands, ops, 0, |Operators(t.l.l)|, 1);
      SumIsNoLValue(t);
      assert false;
    }
  }

  lemma SumIsNoLValue(t: Tree)
    requires t.Node? && t.op == Assign && t.l.Node? && t.l.op == Add
    ensures !WellFormedExpr(ToExpr(t))
  {
    assert !IsLValue(ToExpr(t.l));
  }

  lemma SingleLeaf(t: Tree, operands: seq<Expr>, ops: seq<BinaryOp>, i: nat)
    requires Chain(operands, ops) && i < |operands| && Spells(t, operands, ops, i, i)
    ensures t == Leaf(operands[i])
  {
    assert operands[i..i + 1] == [operands[i]];
    LeavesCount(t);
  }

  // ---- the invariant of the main loop ----

  /** Groups hold no assignments, and what stands before a waiting assignment is an l-value exactly if it fits. */
  ghost predicate Accepting(operands: seq<Expr>, ops: seq<BinaryOp>, stack: seq<Tree>, opStack: OpStack, i: nat)
    requires Arranged(operands, ops, stack, opStack, i)
  {
    && (forall t :: 0 <= t < |stack| ==> PlainAt(ops, stack, opStack, i, t))
    && (forall t :: 0 <= t < |opStack| ==> LeftAt(operands, ops, stack, opStack, t))
    && TopForm(operands, ops, stack[|opStack|], First(opStack, |opStack|), i)
    && HeadOfRun(ops, i)
  }

  ghost predicate PlainAt(ops: seq<BinaryOp>, stack: seq<Tree>, opStack: OpStack, i: nat, t: nat)
    requires t < |stack| == |opStack| + 1
  {
    PlainGroup(ops, stack[t], First(opStack, t), Last(opStack, t, i))
  }

  ghost predicate LeftAt(operands: seq<Expr>, ops: seq<BinaryOp>, stack: seq<Tree>, opStack: OpStack, t: nat)
    requires t < |opStack| == |stack| - 1 && Chain(operands, ops) && opStack[t].0 < |ops|
  {
    LeftOfAssign(operands, ops, stack[t], opStack[t].0)
  }

  ghost predicate PlainGroup(ops: seq<BinaryOp>, t: Tree, lo: nat, hi: nat) {
    WellFormedExpr(ToExpr(t)) && NoAssignIn(ops, lo, hi)
  }

  /** The group on top is a single operand, or no l-value; before an assignment this tells whether a run was balanced. */
  ghost predicate TopForm(operands: seq<Expr>, ops: seq<BinaryOp>, t: Tree, lo: nat, i: nat)
    requires Chain(operands, ops) && i <= |ops|
  {
    && (if lo == i then t == Leaf(operands[i]) else !IsLValue(ToExpr(t)))
    && (i < |ops| && ops[i] == Assign ==> (lo == i <==> !EndsBalanced(ops, i)))
  }

  lemma JoinPlain(ops: seq<BinaryOp>, l: Tree, r: Tree, lo: nat, j: nat, hi: nat)
    requires lo <= j < hi <= |ops| && PlainGroup(ops, l, lo, j) && PlainGroup(ops, r, j + 1, hi) && ops[j] != Assign
    ensures PlainGroup(ops, Node(ops[j], l, r), lo, hi) && !IsLValue(ToExpr(Node(ops[j], l, r)))
  {
  }

  lemma LeafPlain(operands: seq<Expr>, ops: seq<BinaryOp>, i: nat)
    requires i < |operands| && OperandsWellFormed(operands)
    ensures PlainGroup(ops, Leaf(operands[i]), i, i)
  {
  }

  /** Operator `i` is pushed with the group on top to its left. */
  lemma TopBecomesLeft(operands: seq<Expr>, ops: seq<BinaryOp>, t: Tree, lo: nat, i: nat)
    requires Chain(operands, ops) && i < |ops| && TopForm(operands, ops, t, lo, i)
    ensures LeftOfAssign(operands, ops, t, i)
  {
  }

  ghost predicate NoAssignIn(ops: seq<BinaryOp>, lo: nat, hi: nat) {
    forall x :: lo <= x < hi < |ops| + 1 ==> ops[x] != Assign
  }

  ghost predicate LeftOfAssign(operands: seq<Expr>, ops: seq<BinaryOp>, t: Tree, j: nat)
    requires Chain(operands, ops) && j < |ops|
  {
    ops[j] == Assign ==> (IsLValue(ToExpr(t)) <==> Fits(operands, ops, j))
  }

  /** A run that stretches up to an assignment is met at its beginning. */
  ghost predicate HeadOfRun(ops: seq<BinaryOp>, i: nat) {
    forall b :: i <= b && RunUpToAssign(ops, i, b) ==> i <= FreeStart(ops, b)
  }

  ghost predicate RunUpToAssign(ops: seq<BinaryOp>, i: nat, b: nat) {
    i <= b < |ops| && Swappable(ops[i]) && (forall x :: i <= x <= b ==> ops[x] == ops[i]) && b + 1 < |ops| && ops[b + 1] == Assign
  }

  lemma AcceptingInitially(operands: seq<Expr>, ops: seq<BinaryOp>)
    requires Chain(operands, ops) && OperandsWellFormed(operands) && Arranged(operands, ops, [Leaf(operands[0])], [], 0)
    ensures Accepting(operands, ops, [Leaf(operands[0])], [], 0)
  {
  }

  lemma AcceptingReduce(operands: seq<Expr>, ops: seq<BinaryOp>, stack: seq<Tree>, opStack: OpStack, i: nat)
    requires Arranged(operands, ops, stack, opStack, i) && Accepting(operands, ops, stack, opStack, i)
    requires opStack != [] && IsLeftAssociative(opStack[|opStack| - 1].1) && (i < |ops| ==> ops[i] != Assign)
    ensures var m := |opStack| - 1;
            && Arranged(operands, ops, Reduced(stack, opStack[m].1), opStack[..m], i)
            && Accepting(operands, ops, Reduced(stack, opStack[m].1), opStack[..m], i)
  {
    hide Spells, HeadOfRun, Fits, EndsBalanced, PlainGroup, LeftOfAssign, IsLValue, ToExpr;
    ReduceArranged(operands, ops, stack, opStack, i);
    var m := |opStack| - 1;
    var s', o' := Reduced(stack, opStack[m].1), opStack[..m];
    assert PlainAt(ops, stack, opStack, i, m) && PlainAt(ops, stack, opStack, i, m + 1);
    JoinPlain(ops, stack[m], stack[m + 1], First(opStack, m), opStack[m].0, i);
    assert s'[m] == Node(opStack[m].1, stack[m], stack[m + 1]);
    forall t | 0 <= t < |s'|
      ensures PlainAt(ops, s', o', i, t)
    {
      assert t < m ==> s'[t] == stack[t] && PlainAt(ops, stack, opStack, i, t);
    }
    forall t | 0 <= t < |o'|
      ensures LeftAt(operands, ops, s', o', t)
    {
      assert LeftAt(operands, ops, stack, opStack, t);
    }
  }

  lemma AcceptingPush(operands: seq<Expr>, ops: seq<BinaryOp>, stack: seq<Tree>, opStack: OpStack, i: nat)
    requires Arranged(operands, ops, stack, opStack, i) && Accepting(operands, ops, stack, opStack, i)
    requires i < |ops| && OperandsWellFormed(operands) && PassedBy(ops, i)
    ensures Arranged(operands, ops, stack + [Leaf(operands[i + 1])], opStack + [(i, ops[i])], i + 1)
    ensures Accepting(operands, ops, stack + [Leaf(operands[i + 1])], opStack + [(i, ops[i])], i + 1)
  {
    hide Spells, Fits, EndsBalanced, PlainGroup, LeftOfAssign, IsLValue, ToExpr, HeadOfRun, PassedBy, OperandsWellFormed;
    PushArranged(operands, ops, stack, opStack, i);
    var s', o', next := stack + [Leaf(operands[i + 1])], opStack + [(i, ops[i])], i + 1;
    HeadPasses(ops, i);
    LeafPlain(operands, ops, next);
    TopBecomesLeft(operands, ops, stack[|opStack|], First(opStack, |opStack|), i);
    forall t | 0 <= t < |s'|
      ensures PlainAt(ops, s', o', next, t)
    {
      if t < |stack| {
        assert PlainAt(ops, stack, opStack, i, t);
        assert s'[t] == stack[t] && First(o', t) == First(opStack, t) && Last(o', t, next) == Last(opStack, t, i);
      }
    }
    forall t | 0 <= t < |o'|
      ensures LeftAt(operands, ops, s', o', t)
    {
      assert t < |opStack| ==> LeftAt(operands, ops, stack, opStack, t);
    }
  }

  /** Operator `i` does not begin a balanced run. */
  predicate PassedBy(ops: seq<BinaryOp>, i: nat)
    requires i < |ops|
  {
    i + 1 < |ops| && Swappable(ops[i]) ==>
      !(i == 0 || ops[i - 1] == ops[i] || Priority(ops[i - 1]) > Priority(ops[i])) || ops[i + 1] != ops[i] || (i + 2 < |ops| && !RunsOn(ops, i))
  }

  lemma OthersPass(ops: seq<BinaryOp>, i: nat)
    requires i < |ops| && !Swappable(ops[i])
    ensures PassedBy(ops, i)
  {
  }

  /** The run at `i` reaches an assignment, or is at least three operators long. */
  predicate RunsOn(ops: seq<BinaryOp>, i: nat)
    requires i + 2 < |ops|
  {
    ops[i + 2] == ops[i] || Priority(ops[i]) < Priority(ops[i + 2])
  }

  lemma HeadPasses(ops: seq<BinaryOp>, i: nat)
    requires i < |ops| && HeadOfRun(ops, i) && PassedBy(ops, i)
    ensures HeadOfRun(ops, i + 1)
    ensures i + 1 < |ops| && ops[i + 1] == Assign ==> !EndsBalanced(ops, i + 1)
  {
    var next := i + 1;
    if next < |ops| && ops[next] == Assign && Swappable(ops[i]) {
      assert RunUpToAssign(ops, i, i);
    }
    forall b | next <= b && RunUpToAssign(ops, next, b)
      ensures next <= FreeStart(ops, b)
    {
      if ops[i] == ops[next] {
        assert RunUpToAssign(ops, i, b);
        assert ops[b] == ops[i];
        RunStartIs(ops, RunStart(ops, i), b);
        assert Priority(ops[b + 1]) == 12;
      } else {
        RunStartIs(ops, next, b);
      }
    }
  }

  lemma AcceptingRun(operands: seq<Expr>, ops: seq<BinaryOp>, stack: seq<Tree>, opStack: OpStack, i: nat, last: nat)
    requires Arranged(operands, ops, stack, opStack, i) && Accepting(operands, ops, stack, opStack, i) && OperandsWellFormed(operands)
    requires i < last < |ops| && First(opStack, |opStack|) == i && Swappable(ops[i]) && forall x :: i <= x <= last ==> ops[x] == ops[i]
    requires i == 0 || ops[i - 1] == ops[i] || Priority(ops[i - 1]) > Priority(ops[i])
    requires last + 1 < |ops| && ops[last + 1] == ops[i] ==> last + 2 < |ops| && ops[last + 2] != ops[i] && ops[last + 2] != Assign
    ensures var s' := stack[..|stack| - 1] + [FoldExprList(ops[i], operands, i, last + 1)];
            && Arranged(operands, ops, s', opStack, last + 1)
            && Accepting(operands, ops, s', opStack, last + 1)
  {
    hide Spells, Fits, PlainGroup, LeftOfAssign, FoldExprList, IsLValue, ToExpr, OperandsWellFormed, EndsBalanced, HeadOfRun;
    RunArranged(operands, ops, stack, opStack, i, last);
    var t', next := FoldExprList(ops[i], operands, i, last + 1), last + 1;
    var s' := stack[..|stack| - 1] + [t'];
    FoldPlain(operands, ops, i, last);
    RunPassed(ops, i, last);
    forall t | 0 <= t < |s'|
      ensures PlainAt(ops, s', opStack, next, t)
    {
      assert t < |opStack| ==> PlainAt(ops, stack, opStack, i, t);
    }
    forall t | 0 <= t < |opStack|
      ensures LeftAt(operands, ops, s', opStack, t)
    {
      assert LeftAt(operands, ops, stack, opStack, t);
    }
  }

  lemma FoldPlain(operands: seq<Expr>, ops: seq<BinaryOp>, i: nat, last: nat)
    requires Chain(operands, ops) && i <= last < |ops| && OperandsWellFormed(operands) && Swappable(ops[i])
    requires forall x :: i <= x <= last ==> ops[x] == ops[i]
    ensures var t := FoldExprList(ops[i], operands, i, last + 1);
            PlainGroup(ops, t, i, last + 1) && !IsLValue(ToExpr(t))
  {
    FoldWellFormed(ops[i], operands, i, last + 1);
  }

  lemma RunAccepted(operands: seq<Expr>, ops: seq<BinaryOp>, stack: seq<Tree>, opStack: OpStack, i: nat, last: nat)
    requires Arranged(operands, ops, stack, opStack, i) && (OperandsWellFormed(operands) ==> Accepting(operands, ops, stack, opStack, i))
    requires i < last < |ops| && Swappable(ops[i]) && forall x :: i <= x <= last ==> ops[x] == ops[i]
    requires AfterRun(ops, opStack, i) && (i == 0 || !EndsRun(ops, i))
    requires i == 0 || ops[i - 1] == ops[i] || Priority(ops[i - 1]) > Priority(ops[i])
    requires last + 1 < |ops| && ops[last + 1] == ops[i] ==> EndsRun(ops, last + 1)
    ensures var s' := stack[..|stack| - 1] + [FoldExprList(ops[i], operands, i, last + 1)];
            && |stack| > 0 && Arranged(operands, ops, s', opStack, last + 1)
            && (OperandsWellFormed(operands) ==> Accepting(operands, ops, s', opStack, last + 1))
  {
    hide Spells, FoldExprList, Accepting;
    RunArranged(operands, ops, stack, opStack, i, last);
    if OperandsWellFormed(operands) {
      AcceptingRun(operands, ops, stack, opStack, i, last);
    }
  }

  lemma RunPassed(ops: seq<BinaryOp>, i: nat, last: nat)
    requires i < last < |ops| && HeadOfRun(ops, i) && Swappable(ops[i]) && forall x :: i <= x <= last ==> ops[x] == ops[i]
    requires i == 0 || ops[i - 1] == ops[i] || Priority(ops[i - 1]) > Priority(ops[i])
    requires last + 1 < |ops| && ops[last + 1] == ops[i] ==> last + 2 < |ops| && ops[last + 2] != ops[i] && ops[last + 2] != Assign
    ensures HeadOfRun(ops, last + 1)
    ensures last + 1 < |ops| && ops[last + 1] == Assign ==> EndsBalanced(ops, last + 1)
  {
    var next := last + 1;
    RunStartRange(ops, i);
    RunStartIs(ops, RunStart(ops, i), last);
    if next < |ops| && ops[next] == Assign {
      assert RunUpToAssign(ops, i, last);
    }
    forall b | next <= b && RunUpToAssign(ops, next, b)
      ensures next <= FreeStart(ops, b)
    {
      RunStartIs(ops, next, b);
    }
  }

  lemma {:induction false} FoldWellFormed(op: BinaryOp, list: seq<Expr>, first: nat, last: nat)
    requires first < last < |list| && OperandsWellFormed(list) && Swappable(op)
    ensures WellFormedExpr(ToExpr(FoldExprList(op, list, first, last))) && !IsLValue(ToExpr(FoldExprList(op, list, first, last)))
    decreases last - first, 0
  {
    if first + 1 == last {
      NodeWellFormed(op, Leaf(list[first]), Leaf(list[last]));
    } else {
      hide WellFormedExpr, IsLValue;
      var m := (first + last) / 2;
      FoldOk(op, list, first, m - 1);
      FoldOk(op, list, m, last);
      NodeWellFormed(op, FoldExprList(op, list, first, m - 1), FoldExprList(op, list, m, last));
      NotLValue(op, FoldExprList(op, list, first, m - 1), FoldExprList(op, list, m, last));
    }
  }

  lemma {:induction false} FoldOk(op: BinaryOp, list: seq<Expr>, first: nat, last: nat)
    requires first <= last < |list| && OperandsWellFormed(list) && Swappable(op)
    ensures WellFormedExpr(ToExpr(FoldExprList(op, list, first, last)))
    decreases last - first, 1
  {
    if first < last {
      FoldWellFormed(op, list, first, last);
    }
  }

  lemma NotLValue(op: BinaryOp, l: Tree, r: Tree)
    requires op != Assign
    ensures !IsLValue(ToExpr(Node(op, l, r)))
  {
  }

  // ---- the invariant of the final loop ----

  ghost predicate Unwinding(operands: seq<Expr>, ops: seq<BinaryOp>, stack: seq<Tree>, opStack: OpStack)
    requires Arranged(operands, ops, stack, opStack, |ops|)
  {
    && (forall t :: 0 <= t < |opStack| ==> PlainAt(ops, stack, opStack, |ops|, t))
    && (forall t :: 0 <= t < |opStack| ==> LeftAt(operands, ops, stack, opStack, t))
    && (WellFormedExpr(ToExpr(stack[|opStack|])) <==> AllFit(operands, ops, First(opStack, |opStack|)))
  }

  lemma UnwindingStarts(operands: seq<Expr>, ops: seq<BinaryOp>, stack: seq<Tree>, opStack: OpStack)
    requires Arranged(operands, ops, stack, opStack, |ops|) && Accepting(operands, ops, stack, opStack, |ops|)
    ensures Unwinding(operands, ops, stack, opStack)
  {
    hide Spells, HeadOfRun, Fits, EndsBalanced, LeftOfAssign, WellFormedExpr, ToExpr, IsLValue;
    assert PlainAt(ops, stack, opStack, |ops|, |opStack|);
  }

  lemma UnwindingStep(operands: seq<Expr>, ops: seq<BinaryOp>, stack: seq<Tree>, opStack: OpStack)
    requires Arranged(operands, ops, stack, opStack, |ops|) && Unwinding(operands, ops, stack, opStack) && opStack != []
    ensures var m := |opStack| - 1;
            && Arranged(operands, ops, Reduced(stack, opStack[m].1), opStack[..m], |ops|)
            && Unwinding(operands, ops, Reduced(stack, opStack[m].1), opStack[..m])
  {
    hide Spells, PlainGroup, LeftOfAssign, WellFormedExpr, ToExpr, IsLValue, AllFit;
    ReduceArranged(operands, ops, stack, opStack, |ops|);
    var m := |opStack| - 1;
    var s', o' := Reduced(stack, opStack[m].1), opStack[..m];
    assert s'[m] == Node(opStack[m].1, stack[m], stack[m + 1]);
    assert PlainAt(ops, stack, opStack, |ops|, m) && LeftAt(operands, ops, stack, opStack, m);
    JoinFits(operands, ops, stack[m], stack[m + 1], First(opStack, m), opStack[m].0);
    forall t | 0 <= t < m
      ensures PlainAt(ops, s', o', |ops|, t) && LeftAt(operands, ops, s', o', t)
    {
      assert s'[t] == stack[t] && PlainAt(ops, stack, opStack, |ops|, t) && LeftAt(operands, ops, stack, opStack, t);
    }
  }

  lemma UnwindingEnds(operands: seq<Expr>, ops: seq<BinaryOp>, stack: seq<Tree>)
    requires Arranged(operands, ops, stack, [], |ops|) && Unwinding(operands, ops, stack, [])
    ensures WellFormedExpr(ToExpr(stack[0])) <==> AllFit(operands, ops, 0)
  {
  }

  lemma JoinFits(operands: seq<Expr>, ops: seq<BinaryOp>, l: Tree, r: Tree, lo: nat, j: nat)
    requires Chain(operands, ops) && lo <= j < |ops| && PlainGroup(ops, l, lo, j) && LeftOfAssign(operands, ops, l, j)
    requires WellFormedExpr(ToExpr(r)) <==> AllFit(operands, ops, j + 1)
    ensures WellFormedExpr(ToExpr(Node(ops[j], l, r))) <==> AllFit(operands, ops, lo)
  {
    AllFitFrom(operands, ops, lo, j);
    NodeWellFormed(ops[j], l, r);
  }

  lemma AllFitFrom(operands: seq<Expr>, ops: seq<BinaryOp>, lo: nat, j: nat)
    requires Chain(operands, ops) && lo <= j < |ops| && NoAssignIn(ops, lo, j)
    ensures AllFit(operands, ops, lo) <==> (ops[j] == Assign ==> Fits(operands, ops, j)) && AllFit(operands, ops, j + 1)
  {
    if (ops[j] == Assign ==> Fits(operands, ops, j)) && AllFit(operands, ops, j + 1) {
      forall x | lo <= x < |ops| && ops[x] == Assign
        ensures Fits(operands, ops, x)
      {
        assert x == j || x >= j + 1;
      }
    }
  }
}
