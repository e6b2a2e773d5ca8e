/**
 The grammar of C has one production for each level of operators. A tree that these
 productions derive for a chain of operands and operators is the one that the priorities give.
 */
module LayeredGrammar {
  import opened Ast
  import opened BinaryGrammar

  /** The operators of the productions from multiplicative-expression to logical-OR-expression. */
  const LEVELS: seq<set<BinaryOp>> :=
    [{Mul, Div, Mod}, {Add, Sub}, {Shl, Shr}, {LT, LE, GT, GE}, {EQ, NE}, {And}, {Xor}, {Or}, {LAnd}, {LOr}]

  /**
   With 0 for operands: production `n` is that of level `n - 1`, or a tree of level `n`, an operator, and one of level
   `n - 1`. The last production is the assignment, which goes the other way; that its left side
   must be an l-value is not asked here.
   */
  ghost predicate Derives(n: nat, t: Tree)
    decreases t, n
  {
    match t
    case Leaf(_) => true
    case Node(op, l, r) =>
      if n == 0 || n > 11 then false
      else if n == 11 then (op == Assign && Derives(10, l) && Derives(11, r)) || Derives(10, t)
      else (op in LEVELS[n - 1] && Derives(n, l) && Derives(n - 1, r)) || Derives(n - 1, t)
  }

  /** Every operator is on the level that its priority says. */
  lemma LevelIs(op: BinaryOp, n: nat)
    requires n < 10
    ensures op in LEVELS[n] <==> Priority(op) == n + 2
  {
  }

  /** Derivable trees have operators of their level and below. */
  lemma {:induction false} DerivedOperators(n: nat, t: Tree)
    requires Derives(n, t)
    ensures forall x :: 0 <= x < |Operators(t)| ==> Priority(Operators(t)[x]) <= n + 1
    decreases t, n
  {
    if t.Node? {
      if n < 11 && t.op in LEVELS[n - 1] && Derives(n, t.l) && Derives(n - 1, t.r) {
        LevelIs(t.op, n - 1);
        DerivedOperators(n, t.l);
        DerivedOperators(n - 1, t.r);
      } else if n == 11 && t.op == Assign && Derives(10, t.l) && Derives(11, t.r) {
        DerivedOperators(10, t.l);
        DerivedOperators(11, t.r);
      } else {
        DerivedOperators(n - 1, t);
      }
    }
  }

  /** The tree by priorities is derivable. */
  lemma {:induction false} GroupingDerives(operands: seq<Expr>, ops: seq<BinaryOp>, lo: nat, hi: nat, n: nat)
    requires Chain(operands, ops) && lo <= hi < |operands| && n <= 11
    requires forall x :: lo <= x < hi ==> Priority(ops[x]) <= n + 1
    ensures Derives(n, Grouping(operands, ops, lo, hi))
    decreases n, hi - lo
  {
    hide Loosest, Grouping, Derives;
    if lo == hi {
      OneLeaf(operands, ops, lo);
      DerivesLeaf(n, Leaf(operands[lo]));
    } else {
      var k := Loosest(ops, lo, hi);
      GroupingSplit(operands, ops, lo, hi);
      var l, r := Grouping(operands, ops, lo, k), Grouping(operands, ops, k + 1, hi);
      if Priority(ops[k]) == n + 1 {
        var m := if n == 11 then 10 else n;
        GroupingDerives(operands, ops, lo, k, m);
        GroupingDerives(operands, ops, k + 1, hi, if n == 11 then 11 else n - 1);
        DerivesNode(n, ops[k], l, r);
      } else {
        GroupingDerives(operands, ops, lo, hi, n - 1);
        DerivesAbove(n, Node(ops[k], l, r));
      }
    }
  }

  lemma DerivesLeaf(n: nat, t: Tree)
    requires t.Leaf?
    ensures Derives(n, t)
  {
  }

  lemma DerivesNode(n: nat, op: BinaryOp, l: Tree, r: Tree)
    requires 0 < n <= 11 && Priority(op) == n + 1
    requires if n == 11 then Derives(10, l) && Derives(11, r) else Derives(n, l) && Derives(n - 1, r)
    ensures Derives(n, Node(op, l, r))
  {
    if n < 11 {
      LevelIs(op, n - 1);
    }
  }

  lemma DerivesAbove(n: nat, t: Tree)
    requires 0 < n <= 11 && Derives(n - 1, t)
    ensures Derives(n, t)
  {
  }

  /** At most one tree is derivable for an input. */
  lemma {:induction false} DerivedIsGrouping(n: nat, t: Tree, operands: seq<Expr>, ops: seq<BinaryOp>, lo: nat, hi: nat)
    requires Chain(operands, ops) && lo <= hi < |operands| && n <= 11
    requires Spells(t, operands, ops, lo, hi) && Derives(n, t)
    ensures t == Grouping(operands, ops, lo, hi)
    decreases t, n
  {
    hide Grouping, Loosest, Priority;
    if t.Leaf? {
      assert hi - lo == |ops[lo..hi]| == 0;
      assert operands[lo..hi + 1] == [operands[lo]];
      OneLeaf(operands, ops, lo);
    } else if Derives(n - 1, t) {
      DerivedIsGrouping(n - 1, t, operands, ops, lo, hi);
    } else {
      var m, p := if n == 11 then 10 else n, if n == 11 then 11 else n - 1;
      DerivedOperators(m, t.l);
      DerivedOperators(p, t.r);
      var k := lo + |Operators(t.l)|;
      SpellsParts(t, operands, ops, lo, k, hi);
      TopPriority(n, t.op);
      DerivedIsGrouping(m, t.l, operands, ops, lo, k);
      DerivedIsGrouping(p, t.r, operands, ops, k + 1, hi);
      TopIsLoosest(t, operands, ops, lo, k, hi, n);
      GroupingSplit(operands, ops, lo, hi);
    }
  }

  lemma TopPriority(n: nat, op: BinaryOp)
    requires 0 < n <= 11 && if n == 11 then op == Assign else op in LEVELS[n - 1]
    ensures Priority(op) == n + 1
  {
    if n < 11 {
      LevelIs(op, n - 1);
    }
  }

  lemma {:induction false} LeavesCount(t: Tree)
    ensures |Leaves(t)| == |Operators(t)| + 1
  {
    if t.Node? {
      LeavesCount(t.l);
      LeavesCount(t.r);
    }
  }

  lemma SpellsParts(t: Tree, operands: seq<Expr>, ops: seq<BinaryOp>, lo: nat, k: nat, hi: nat)
    requires Chain(operands, ops) && lo <= hi < |operands| && t.Node? && Spells(t, operands, ops, lo, hi) && k == lo + |Operators(t.l)|
    ensures k < hi && t.op == ops[k] && Spells(t.l, operands, ops, lo, k) && Spells(t.r, operands, ops, k + 1, hi)
  {
    LeavesCount(t.l);
    LeavesCount(t.r);
    var a, b := Operators(t.l), Operators(t.r);
    assert ops[lo..hi] == a + [t.op] + b;
    assert a == (a + [t.op] + b)[..|a|] && b == (a + [t.op] + b)[|a| + 1..];
    assert ops[k] == ops[lo..hi][k - lo] == (a + [t.op] + b)[|a|];
    assert ops[lo..k] == ops[lo..hi][..|a|] && ops[k + 1..hi] == ops[lo..hi][|a| + 1..];
    var x, y := Leaves(t.l), Leaves(t.r);
    assert operands[lo..hi + 1] == x + y;
    assert x == (x + y)[..|x|] && y == (x + y)[|x|..];
    assert operands[lo..k + 1] == operands[lo..hi + 1][..|x|] && operands[k + 1..hi + 1] == operands[lo..hi + 1][|x|..];
  }

  lemma TopIsLoosest(t: Tree, operands: seq<Expr>, ops: seq<BinaryOp>, lo: nat, k: nat, hi: nat, n: nat)
    requires Chain(operands, ops) && lo <= k < hi < |operands| && t.Node? && 0 < n <= 11
    requires Spells(t.l, operands, ops, lo, k) && Spells(t.r, operands, ops, k + 1, hi) && t.op == ops[k] && Priority(ops[k]) == n + 1
    requires forall x :: 0 <= x < |Operators(t.l)| ==> Priority(Operators(t.l)[x]) <= if n == 11 then 11 else n + 1
    requires forall x :: 0 <= x < |Operators(t.r)| ==> Priority(Operators(t.r)[x]) <= if n == 11 then 12 else n
    ensures Loosest(ops, lo, hi) == k
  {
    forall x | lo <= x < k
      ensures ops[x] != Assign && Priority(ops[x]) <= Priority(ops[k])
    {
      assert ops[x] == Operators(t.l)[x - lo];
    }
    forall x | k < x < hi
      ensures ops[k] == Assign || Priority(ops[x]) < Priority(ops[k])
    {
      assert ops[x] == Operators(t.r)[x - (k + 1)];
    }
    LoosestIs(ops, lo, hi, k);
  }

  /** The grammar derives one tree for every input, and it is the one that the priorities give. */
  lemma UniqueTree(t: Tree, operands: seq<Expr>, ops: seq<BinaryOp>)
    requires Chain(operands, ops)
    ensures Leaves(t) == operands && Operators(t) == ops && Derives(11, t) <==> t == Grouping(operands, ops, 0, |ops|)
  {
    assert operands[0..|ops| + 1] == operands && ops[0..|ops|] == ops;
    GroupingSpells(operands, ops, 0, |ops|);
    GroupingDerives(operands, ops, 0, |ops|, 11);
    if Leaves(t) == operands && Operators(t) == ops && Derives(11, t) {
      DerivedIsGrouping(11, t, operands, ops, 0, |ops|);
    }
  }
}
