/** The state of the two-stack parser: what its stacks hold, and why each step keeps that. */
module OperatorStacks {
  import opened Options
  import opened Ast
  import opened BinaryGrammar
  import opened Int32

  /** Balance a run of one swappable operator. */
  function FoldExprList(op: BinaryOp, list: seq<Expr>, first: nat, last: nat): Tree
    requires first <= last < |list|
    decreases last - first
  {
    if first == last then Leaf(list[first])
    else if first + 1 == last then Node(op, Leaf(list[first]), Leaf(list[last]))
    else
      var m := (first + last) / 2;
      Node(op, FoldExprList(op, list, first, m - 1), FoldExprList(op, list, m, last))
  }

  function Height(t: Tree): nat {
    match t
    case Leaf(_) => 0
    case Node(_, l, r) => 1 + if Height(l) < Height(r) then Height(r) else Height(l)
  }

  /** Folding balances: up to 2^k operators fit into a tree of height k + 1. */
  lemma {:induction false} FoldIsFlat(op: BinaryOp, list: seq<Expr>, first: nat, last: nat, k: nat)
    requires first <= last < |list| && last - first <= Pow2(k)
    ensures Height(FoldExprList(op, list, first, last)) <= k + 1
    ensures var t := FoldExprList(op, list, first, last); t.Node? ==> Height(t) > Height(t.l) && Height(t) > Height(t.r)
    decreases k
  {
    if first + 1 < last {
      var m := (first + last) / 2;
      FoldIsFlat(op, list, first, m - 1, k - 1);
      FoldIsFlat(op, list, m, last, k - 1);
    }
  }

  /** A balanced run has its operands and operators in their order. */
  lemma {:induction false} FoldSpells(operands: seq<Expr>, ops: seq<BinaryOp>, op: BinaryOp, first: nat, last: nat)
    requires Chain(operands, ops) && first <= last < |operands| && forall x :: first <= x < last ==> ops[x] == op
    ensures Spells(FoldExprList(op, operands, first, last), operands, ops, first, last)
    decreases last - first
  {
    hide Spells;
    if first == last {
      OneLeaf(operands, ops, first);
    } else {
      var m := if first + 1 == last then last else (first + last) / 2;
      FoldSpells(operands, ops, op, first, m - 1);
      FoldSpells(operands, ops, op, m, last);
      NodeSpells(operands, ops, FoldExprList(op, operands, first, m - 1), FoldExprList(op, operands, m, last), first, m - 1, last);
    }
  }

  lemma {:induction false} FoldMeans(operands: seq<Expr>, ops: seq<BinaryOp>, op: BinaryOp, first: nat, last: nat)
    requires Chain(operands, ops) && OperandsWellFormed(operands) && Swappable(op)
    requires first <= last < |operands| && forall x :: first <= x < last ==> ops[x] == op
    ensures Same(FoldExprList(op, operands, first, last), Grouping(operands, ops, first, last))
    decreases last - first
  {
    hide Same, Eval, Grouping, Loosest;
    NoAssignmentIsLegal(operands, ops, first, last);
    if first == last {
      OneLeaf(operands, ops, first);
      SameSelf(Leaf(operands[first]));
    } else {
      var m := if first + 1 == last then last else (first + last) / 2;
      FoldMeans(operands, ops, op, first, m - 1);
      FoldMeans(operands, ops, op, m, last);
      var l, r := Grouping(operands, ops, first, m - 1), Grouping(operands, ops, m, last);
      SameNode(op, FoldExprList(op, operands, first, m - 1), FoldExprList(op, operands, m, last), l, r);
      JoinGroups(operands, ops, first, m - 1, last);
      SameTrans(FoldExprList(op, operands, first, last), Node(op, l, r), Grouping(operands, ops, first, last));
    }
  }

  // ---- the two stacks ----

  type OpStack = seq<(nat, BinaryOp)>

  /** The first operand of the group at position `t` of the stack. */
  function First(opStack: OpStack, t: nat): nat
    requires t <= |opStack|
  {
    if t == 0 then 0 else opStack[t - 1].0 + 1
  }

  /** The last operand of that group, when operands up to `i` have been taken. */
  function Last(opStack: OpStack, t: nat, i: nat): nat
    requires t <= |opStack|
  {
    if t < |opStack| then opStack[t].0 else i
  }

  /** The stack holds consecutive groups of operands, separated by the operators on the operator stack. */
  ghost predicate Arranged(operands: seq<Expr>, ops: seq<BinaryOp>, stack: seq<Tree>, opStack: OpStack, i: nat) {
    && Chain(operands, ops) && i <= |ops|
    && |stack| == |opStack| + 1
    && (forall t :: 0 <= t < |opStack| ==> opStack[t].0 < i && ops[opStack[t].0] == opStack[t].1)
    && (forall t, u :: 0 <= t < u < |opStack| ==> opStack[t].0 < opStack[u].0)
    && (forall t :: 0 <= t < |stack| ==> Spells(stack[t], operands, ops, First(opStack, t), Last(opStack, t, i)))
  }

  /** Every group means what the grammar says, and the operators waiting between them may take what is on their two sides. */
  ghost predicate Meaningful(operands: seq<Expr>, ops: seq<BinaryOp>, stack: seq<Tree>, opStack: OpStack, i: nat)
    requires Arranged(operands, ops, stack, opStack, i)
  {
    && (forall t :: 0 <= t < |stack| ==> GroupMeans(operands, ops, stack, opStack, i, t))
    && (forall t :: 0 <= t < |opStack| ==> Waits(ops, opStack, i, t))
  }

  ghost predicate GroupMeans(operands: seq<Expr>, ops: seq<BinaryOp>, stack: seq<Tree>, opStack: OpStack, i: nat, t: nat)
    requires Arranged(operands, ops, stack, opStack, i) && t < |stack|
  {
    Same(stack[t], Grouping(operands, ops, First(opStack, t), Last(opStack, t, i)))
  }

  ghost predicate Waits(ops: seq<BinaryOp>, opStack: OpStack, i: nat, t: nat)
    requires t < |opStack| && opStack[t].0 < i <= |ops|
  {
    && (forall x :: First(opStack, t) <= x < opStack[t].0 ==> Follows(ops[x], ops[opStack[t].0]))
    && (forall x :: opStack[t].0 < x < i ==> Binds(ops[opStack[t].0], ops[x]))
  }

  /** The group on top may become the left operand of operator `i`. */
  ghost predicate TopFollows(ops: seq<BinaryOp>, opStack: OpStack, i: nat) {
    i < |ops| ==> forall x :: First(opStack, |opStack|) <= x < i ==> Follows(ops[x], ops[i])
  }

  /** The group on top is one operand, or a run that the operator `i` does not continue as a run. */
  ghost predicate AfterRun(ops: seq<BinaryOp>, opStack: OpStack, i: nat) {
    || First(opStack, |opStack|) == i
    || i >= |ops|
    || (0 < i && EndsRun(ops, i))
  }

  ghost predicate EndsRun(ops: seq<BinaryOp>, i: nat)
    requires 0 < i < |ops|
  {
    || (ops[i] != ops[i - 1] && Priority(ops[i - 1]) <= Priority(ops[i]))
    || (ops[i] == ops[i - 1] && i + 1 < |ops| && ops[i + 1] != ops[i] && Priority(ops[i + 1]) <= Priority(ops[i]))
  }

  /** Take the top operator and join the two groups on top. */
  function Reduced(stack: seq<Tree>, op: BinaryOp): seq<Tree>
    requires |stack| >= 2
  {
    stack[..|stack| - 2] + [Node(op, stack[|stack| - 2], stack[|stack| - 1])]
  }

  lemma ReduceArranged(operands: seq<Expr>, ops: seq<BinaryOp>, stack: seq<Tree>, opStack: OpStack, i: nat)
    requires Arranged(operands, ops, stack, opStack, i) && opStack != []
    ensures var m := |opStack| - 1;
            Arranged(operands, ops, Reduced(stack, opStack[m].1), opStack[..m], i)
  {
    hide Spells;
    var m := |opStack| - 1;
    var s', o' := Reduced(stack, opStack[m].1), opStack[..m];
    var a, j := First(opStack, m), opStack[m].0;
    assert First(o', m) == a && Last(o', m, i) == i;
    NodeSpells(operands, ops, stack[m], stack[m + 1], a, j, i);
    forall t | 0 <= t < |s'|
      ensures Spells(s'[t], operands, ops, First(o', t), Last(o', t, i))
    {
      if t < m {
        assert s'[t] == stack[t];
      } else {
        assert s'[t] == Node(opStack[m].1, stack[m], stack[m + 1]);
      }
    }
  }

  lemma ReduceMeaningful(operands: seq<Expr>, ops: seq<BinaryOp>, stack: seq<Tree>, opStack: OpStack, i: nat)
    requires Arranged(operands, ops, stack, opStack, i) && opStack != [] && Meaningful(operands, ops, stack, opStack, i)
    requires OperandsWellFormed(operands) && LegalAssignments(operands, ops, 0, |ops|)
    ensures var m := |opStack| - 1;
            && Arranged(operands, ops, Reduced(stack, opStack[m].1), opStack[..m], i)
            && Meaningful(operands, ops, Reduced(stack, opStack[m].1), opStack[..m], i)
  {
    hide Same, Grouping, Loosest, Spells, Follows, Binds;
    ReduceArranged(operands, ops, stack, opStack, i);
    var m := |opStack| - 1;
    var s', o' := Reduced(stack, opStack[m].1), opStack[..m];
    forall t | 0 <= t < |o'|
      ensures Waits(ops, o', i, t)
    {
      assert Waits(ops, opStack, i, t);
      assert First(o', t) == First(opStack, t);
    }
    forall t | 0 <= t < |s'|
      ensures GroupMeans(operands, ops, s', o', i, t)
    {
      assert GroupMeans(operands, ops, stack, opStack, i, t);
      if t == m {
        assert GroupMeans(operands, ops, stack, opStack, i, m + 1);
        assert Waits(ops, opStack, i, m);
        JoinMeans(operands, ops, stack[m], stack[m + 1], First(opStack, m), opStack[m].0, i);
        assert s'[m] == Node(opStack[m].1, stack[m], stack[m + 1]);
      } else {
        assert s'[t] == stack[t];
      }
    }
  }

  lemma AssignmentStandsAlone(operands: seq<Expr>, ops: seq<BinaryOp>, lo: nat, j: nat)
    requires Chain(operands, ops) && lo <= j < |ops| && LegalAssignments(operands, ops, 0, |ops|) && ops[j] == Assign
    requires forall x :: lo <= x < j ==> Follows(ops[x], ops[j])
    ensures lo == j
  {
    var first, last := ops[lo], ops[j];
    assert IsLValue(operands[j]);
    assert lo == j || Follows(first, last);
  }

  lemma JoinMeans(operands: seq<Expr>, ops: seq<BinaryOp>, l: Tree, r: Tree, lo: nat, j: nat, hi: nat)
    requires Chain(operands, ops) && lo <= j < hi < |operands| && OperandsWellFormed(operands) && LegalAssignments(operands, ops, 0, |ops|)
    requires forall x :: lo <= x < j ==> Follows(ops[x], ops[j])
    requires forall x :: j < x < hi ==> Binds(ops[j], ops[x])
    requires Same(l, Grouping(operands, ops, lo, j)) && Same(r, Grouping(operands, ops, j + 1, hi))
    ensures Same(Node(ops[j], l, r), Grouping(operands, ops, lo, hi))
  {
    var gl, gr := Grouping(operands, ops, lo, j), Grouping(operands, ops, j + 1, hi);
    GroupLegal(operands, ops, 0, |ops|, lo, hi);
    if ops[j] == Assign {
      AssignmentStandsAlone(operands, ops, lo, j);
      OneLeaf(operands, ops, lo);
    }
    assert ops[j] == Assign ==> IsLValue(ToExpr(l));
    SameNode(ops[j], l, r, gl, gr);
    JoinGroups(operands, ops, lo, j, hi);
    SameTrans(Node(ops[j], l, r), Node(ops[j], gl, gr), Grouping(operands, ops, lo, hi));
  }

  lemma PushArranged(operands: seq<Expr>, ops: seq<BinaryOp>, stack: seq<Tree>, opStack: OpStack, i: nat)
    requires Arranged(operands, ops, stack, opStack, i) && i < |ops|
    ensures Arranged(operands, ops, stack + [Leaf(operands[i + 1])], opStack + [(i, ops[i])], i + 1)
  {
    var s', o' := stack + [Leaf(operands[i + 1])], opStack + [(i, ops[i])];
    forall t | 0 <= t < |s'|
      ensures Spells(s'[t], operands, ops, First(o', t), Last(o', t, i + 1))
    {
      if t < |stack| {
        assert First(o', t) == First(opStack, t) && Last(o', t, i + 1) == Last(opStack, t, i);
      } else {
        OneLeaf(operands, ops, i + 1);
      }
    }
  }

  /** The operator on top lets operator `i` go to its right. */
  ghost predicate TopBinds(ops: seq<BinaryOp>, opStack: OpStack, i: nat)
    requires i < |ops|
  {
    opStack != [] ==> Binds(opStack[|opStack| - 1].1, ops[i])
  }

  lemma BindsAll(operands: seq<Expr>, ops: seq<BinaryOp>, stack: seq<Tree>, opStack: OpStack, i: nat, t: nat)
    requires Arranged(operands, ops, stack, opStack, i) && Meaningful(operands, ops, stack, opStack, i)
    requires i < |ops| && TopBinds(ops, opStack, i) && t < |opStack|
    ensures Binds(ops[opStack[t].0], ops[i])
  {
    var m := |opStack| - 1;
    if t < m {
      assert Waits(ops, opStack, i, t);
      assert Binds(ops[opStack[t].0], ops[opStack[m].0]);
    }
  }

  lemma PushMeaningful(operands: seq<Expr>, ops: seq<BinaryOp>, stack: seq<Tree>, opStack: OpStack, i: nat)
    requires Arranged(operands, ops, stack, opStack, i) && Meaningful(operands, ops, stack, opStack, i)
    requires i < |ops| && TopFollows(ops, opStack, i) && TopBinds(ops, opStack, i) && OperandsWellFormed(operands)
    ensures Arranged(operands, ops, stack + [Leaf(operands[i + 1])], opStack + [(i, ops[i])], i + 1)
    ensures Meaningful(operands, ops, stack + [Leaf(operands[i + 1])], opStack + [(i, ops[i])], i + 1)
  {
    hide Same, Grouping, Loosest, Spells, Follows, Binds;
    PushArranged(operands, ops, stack, opStack, i);
    var s', o', next := stack + [Leaf(operands[i + 1])], opStack + [(i, ops[i])], i + 1;
    forall t | 0 <= t < |o'|
      ensures Waits(ops, o', next, t)
    {
      if t < |opStack| {
        assert Waits(ops, opStack, i, t);
        BindsAll(operands, ops, stack, opStack, i, t);
      }
      assert First(o', t) == First(opStack, t);
    }
    forall t | 0 <= t < |s'|
      ensures GroupMeans(operands, ops, s', o', next, t)
    {
      if t < |stack| {
        assert GroupMeans(operands, ops, stack, opStack, i, t);
        assert First(o', t) == First(opStack, t) && Last(o', t, i + 1) == Last(opStack, t, i);
      } else {
        OneLeaf(operands, ops, i + 1);
        SameSelf(Leaf(operands[i + 1]));
      }
    }
  }

  /** Replacing the single operand on top by a whole run. */
  lemma RunArranged(operands: seq<Expr>, ops: seq<BinaryOp>, stack: seq<Tree>, opStack: OpStack, i: nat, last: nat)
    requires Arranged(operands, ops, stack, opStack, i) && i <= last < |ops| && First(opStack, |opStack|) == i
    requires forall x :: i <= x <= last ==> ops[x] == ops[i]
    ensures Arranged(operands, ops, stack[..|stack| - 1] + [FoldExprList(ops[i], operands, i, last + 1)], opStack, last + 1)
  {
    var s' := stack[..|stack| - 1] + [FoldExprList(ops[i], operands, i, last + 1)];
    FoldSpells(operands, ops, ops[i], i, last + 1);
    forall t | 0 <= t < |s'|
      ensures Spells(s'[t], operands, ops, First(opStack, t), Last(opStack, t, last + 1))
    {
      if t < |opStack| {
        assert s'[t] == stack[t];
      }
    }
  }

  lemma RunMeaningful(operands: seq<Expr>, ops: seq<BinaryOp>, stack: seq<Tree>, opStack: OpStack, i: nat, last: nat)
    requires Arranged(operands, ops, stack, opStack, i) && Meaningful(operands, ops, stack, opStack, i)
    requires i <= last < |ops| && First(opStack, |opStack|) == i && Swappable(ops[i]) && OperandsWellFormed(operands)
    requires TopBinds(ops, opStack, i) && forall x :: i <= x <= last ==> ops[x] == ops[i]
    ensures var s' := stack[..|stack| - 1] + [FoldExprList(ops[i], operands, i, last + 1)];
            Arranged(operands, ops, s', opStack, last + 1) && Meaningful(operands, ops, s', opStack, last + 1)
  {
    hide Same, Grouping, Loosest, Spells, Follows, Binds, FoldExprList;
    RunArranged(operands, ops, stack, opStack, i, last);
    var s' := stack[..|stack| - 1] + [FoldExprList(ops[i], operands, i, last + 1)];
    var next := last + 1;
    FoldMeans(operands, ops, ops[i], i, last + 1);
    forall t | 0 <= t < |opStack|
      ensures Waits(ops, opStack, next, t)
    {
      assert Waits(ops, opStack, i, t);
      BindsAll(operands, ops, stack, opStack, i, t);
    }
    forall t | 0 <= t < |s'|
      ensures GroupMeans(operands, ops, s', opStack, next, t)
    {
      if t < |opStack| {
        assert GroupMeans(operands, ops, stack, opStack, i, t);
        assert s'[t] == stack[t];
      }
    }
  }

  // ---- steps of the loop ----

  /** Operators from `i - 1` on have not been overwritten. */
  ghost predicate Unread(ops: seq<BinaryOp>, cur: seq<Option<BinaryOp>>, i: nat) {
    |cur| == |ops| && forall x :: 0 <= x < |ops| && i <= x + 1 ==> cur[x] == Some(ops[x])
  }

  ghost predicate IsLegal(operands: seq<Expr>, ops: seq<BinaryOp>)
    requires Chain(operands, ops)
  {
    OperandsWellFormed(operands) && WellFormedExpr(ToExpr(Grouping(operands, ops, 0, |ops|)))
  }

  lemma Initially(operands: seq<Expr>, ops: seq<BinaryOp>)
    requires Chain(operands, ops)
    ensures Arranged(operands, ops, [Leaf(operands[0])], [], 0) && AfterRun(ops, [], 0) && TopFollows(ops, [], 0)
    ensures IsLegal(operands, ops) ==> Meaningful(operands, ops, [Leaf(operands[0])], [], 0)
  {
    var stack: seq<Tree> := [Leaf(operands[0])];
    OneLeaf(operands, ops, 0);
    if OperandsWellFormed(operands) {
      SameSelf(Leaf(operands[0]));
      assert GroupMeans(operands, ops, stack, [], 0, 0);
    }
  }

  lemma ArrangedSizes(operands: seq<Expr>, ops: seq<BinaryOp>, stack: seq<Tree>, opStack: OpStack, i: nat)
    requires Arranged(operands, ops, stack, opStack, i)
    ensures |stack| == |opStack| + 1 && i <= |ops|
    ensures opStack != [] ==> opStack[|opStack| - 1].0 < i
  {
  }

  lemma ReducedBoth(operands: seq<Expr>, ops: seq<BinaryOp>, stack: seq<Tree>, opStack: OpStack, i: nat, legal: bool)
    requires Arranged(operands, ops, stack, opStack, i) && opStack != [] && legal == IsLegal(operands, ops)
    requires legal ==> Meaningful(operands, ops, stack, opStack, i)
    ensures var m := |opStack| - 1;
            && Arranged(operands, ops, Reduced(stack, opStack[m].1), opStack[..m], i)
            && (legal ==> Meaningful(operands, ops, Reduced(stack, opStack[m].1), opStack[..m], i))
  {
    hide Same, Grouping, Meaningful, Spells;
    ReduceArranged(operands, ops, stack, opStack, i);
    if legal {
      LegalExactly(operands, ops, 0, |ops|);
      ReduceMeaningful(operands, ops, stack, opStack, i);
    }
  }

  lemma ReduceTopFollows(operands: seq<Expr>, ops: seq<BinaryOp>, stack: seq<Tree>, opStack: OpStack, i: nat)
    requires Arranged(operands, ops, stack, opStack, i) && Meaningful(operands, ops, stack, opStack, i) && opStack != []
    requires i < |ops| && TopFollows(ops, opStack, i) && Follows(opStack[|opStack| - 1].1, ops[i])
    ensures TopFollows(ops, opStack[..|opStack| - 1], i)
  {
    var m := |opStack| - 1;
    assert Waits(ops, opStack, i, m);
    assert First(opStack[..m], m) == First(opStack, m);
  }

  lemma Pushed(operands: seq<Expr>, ops: seq<BinaryOp>, stack: seq<Tree>, opStack: OpStack, i: nat, legal: bool)
    requires Arranged(operands, ops, stack, opStack, i) && i < |ops| && legal == IsLegal(operands, ops)
    requires legal ==> Meaningful(operands, ops, stack, opStack, i) && TopFollows(ops, opStack, i) && TopBinds(ops, opStack, i)
    ensures var s', o' := stack + [Leaf(operands[i + 1])], opStack + [(i, ops[i])];
            && Arranged(operands, ops, s', o', i + 1) && AfterRun(ops, o', i + 1) && TopFollows(ops, o', i + 1)
            && (legal ==> Meaningful(operands, ops, s', o', i + 1))
  {
    hide Same, Grouping, Meaningful, Spells;
    PushArranged(operands, ops, stack, opStack, i);
    if legal {
      PushMeaningful(operands, ops, stack, opStack, i);
    }
  }

  /** Up to an assignment there are only assignments. */
  lemma AssignmentPushes(operands: seq<Expr>, ops: seq<BinaryOp>, stack: seq<Tree>, opStack: OpStack, i: nat, legal: bool)
    requires Arranged(operands, ops, stack, opStack, i) && i < |ops| && ops[i] == Assign && legal == IsLegal(operands, ops)
    ensures legal ==> TopBinds(ops, opStack, i)
  {
    if legal {
      LegalExactly(operands, ops, 0, |ops|);
    }
  }

  lemma TakeRun(operands: seq<Expr>, ops: seq<BinaryOp>, stack: seq<Tree>, opStack: OpStack, i: nat, last: nat, legal: bool)
    requires Arranged(operands, ops, stack, opStack, i) && i < last < |ops| && Swappable(ops[i]) && legal == IsLegal(operands, ops)
    requires AfterRun(ops, opStack, i) && (i == 0 || (!EndsRun(ops, i) && (ops[i - 1] == ops[i] || Priority(ops[i - 1]) > Priority(ops[i]))))
    requires forall x :: i <= x <= last ==> ops[x] == ops[i]
    requires last + 1 < |ops| ==> if ops[last + 1] == ops[i] then EndsRun(ops, last + 1) else Priority(ops[i]) < Priority(ops[last + 1])
    requires legal ==> Meaningful(operands, ops, stack, opStack, i)
    ensures var s', next := stack[..|stack| - 1] + [FoldExprList(ops[i], operands, i, last + 1)], last + 1;
            && Arranged(operands, ops, s', opStack, next) && AfterRun(ops, opStack, next) && TopFollows(ops, opStack, next)
            && (legal ==> Meaningful(operands, ops, s', opStack, next))
  {
    hide Same, Grouping, Meaningful, Spells, FoldExprList;
    assert First(opStack, |opStack|) == i;
    RunArranged(operands, ops, stack, opStack, i, last);
    if legal {
      RunMeaningful(operands, ops, stack, opStack, i, last);
    }
  }

  lemma Finally(operands: seq<Expr>, ops: seq<BinaryOp>, stack: seq<Tree>, legal: bool)
    requires Arranged(operands, ops, stack, [], |ops|) && legal == IsLegal(operands, ops)
    requires legal ==> Meaningful(operands, ops, stack, [], |ops|)
    ensures |stack| == 1 && Leaves(stack[0]) == operands && Operators(stack[0]) == ops
    ensures legal ==> Same(stack[0], Grouping(operands, ops, 0, |ops|))
  {
    assert operands[0..|ops| + 1] == operands && ops[0..|ops|] == ops;
    if legal {
      assert GroupMeans(operands, ops, stack, [], |ops|, 0);
    }
  }
}
