/** Operator priorities, and the tree that a sequence of operands and operators stands for. */
module BinaryGrammar {
  import opened Int32
  import opened Ast

  /** A smaller number binds tighter. */
  function Priority(op: BinaryOp): (p: nat)
    ensures 2 <= p <= 12
    ensures p == 12 <==> op == Assign
  {
    match op
    case Mul | Div | Mod => 2
    case Add | Sub => 3
    case Shl | Shr => 4
    case LT | LE | GT | GE => 5
    case EQ | NE => 6
    case And => 7
    case Xor => 8
    case Or => 9
    case LAnd => 10
    case LOr => 11
    case Assign => 12
  }

  predicate IsLeftAssociative(op: BinaryOp) {
    op != Assign
  }

  // ---- trees ----

  datatype Tree = Leaf(operand: Expr) | Node(op: BinaryOp, l: Tree, r: Tree)

  function ToExpr(t: Tree): Expr {
    match t
    case Leaf(e) => e
    case Node(op, l, r) => Binary(op, ToExpr(l), ToExpr(r))
  }

  /** The operands from left to right. */
  function Leaves(t: Tree): seq<Expr> {
    match t
    case Leaf(e) => [e]
    case Node(_, l, r) => Leaves(l) + Leaves(r)
  }

  /** The operators from left to right. */
  function Operators(t: Tree): seq<BinaryOp> {
    match t
    case Leaf(_) => []
    case Node(op, l, r) => Operators(l) + [op] + Operators(r)
  }

  /** Read from left to right, the tree is the part `lo..hi` of the input. */
  ghost predicate Spells(t: Tree, operands: seq<Expr>, ops: seq<BinaryOp>, lo: nat, hi: nat)
    requires lo <= hi < |operands| == |ops| + 1
  {
    Leaves(t) == operands[lo..hi + 1] && Operators(t) == ops[lo..hi]
  }

  /** Operator `k` stands between operands `k` and `k + 1`. */
  ghost predicate Chain(operands: seq<Expr>, ops: seq<BinaryOp>) {
    |operands| == |ops| + 1
  }

  /** Where the chain `lo..hi` splits: at the first assignment, or else at the last of the loosest operators. */
  function Loosest(ops: seq<BinaryOp>, lo: nat, hi: nat): (k: nat)
    requires lo < hi <= |ops|
    ensures lo <= k < hi
    ensures forall x :: lo <= x < k ==> ops[x] != Assign && Priority(ops[x]) <= Priority(ops[k])
    ensures forall x :: k < x < hi ==> ops[k] == Assign || Priority(ops[x]) < Priority(ops[k])
  {
    if lo + 1 == hi then lo
    else
      var k := Loosest(ops, lo, hi - 1);
      if ops[k] != Assign && Priority(ops[k]) <= Priority(ops[hi - 1]) then hi - 1 else k
  }

  lemma LoosestIs(ops: seq<BinaryOp>, lo: nat, hi: nat, k: nat)
    requires lo <= k < hi <= |ops|
    requires forall x :: lo <= x < k ==> ops[x] != Assign && Priority(ops[x]) <= Priority(ops[k])
    requires forall x :: k < x < hi ==> ops[k] == Assign || Priority(ops[x]) < Priority(ops[k])
    ensures Loosest(ops, lo, hi) == k
  {
    var j := Loosest(ops, lo, hi);
    assert Priority(ops[j]) == 12 <==> ops[j] == Assign;
  }

  /** The tree of the operands `lo..hi` by the grammar. */
  function Grouping(operands: seq<Expr>, ops: seq<BinaryOp>, lo: nat, hi: nat): Tree
    requires |operands| == |ops| + 1 && lo <= hi < |operands|
    decreases hi - lo
  {
    if lo == hi then Leaf(operands[lo])
    else
      var k := Loosest(ops, lo, hi);
      Node(ops[k], Grouping(operands, ops, lo, k), Grouping(operands, ops, k + 1, hi))
  }

  lemma NodeSpells(operands: seq<Expr>, ops: seq<BinaryOp>, l: Tree, r: Tree, lo: nat, k: nat, hi: nat)
    requires Chain(operands, ops) && lo <= k < hi < |operands| && Spells(l, operands, ops, lo, k) && Spells(r, operands, ops, k + 1, hi)
    ensures Spells(Node(ops[k], l, r), operands, ops, lo, hi)
  {
    assert operands[lo..hi + 1] == operands[lo..k + 1] + operands[k + 1..hi + 1];
    assert ops[lo..hi] == ops[lo..k] + [ops[k]] + ops[k + 1..hi];
  }

  lemma GroupingSplit(operands: seq<Expr>, ops: seq<BinaryOp>, lo: nat, hi: nat)
    requires Chain(operands, ops) && lo < hi < |operands|
    ensures var k := Loosest(ops, lo, hi);
            Grouping(operands, ops, lo, hi) == Node(ops[k], Grouping(operands, ops, lo, k), Grouping(operands, ops, k + 1, hi))
  {
  }

  /** The tree of the grammar has the operands and operators of the input in their order. */
  lemma {:induction false} GroupingSpells(operands: seq<Expr>, ops: seq<BinaryOp>, lo: nat, hi: nat)
    requires Chain(operands, ops) && lo <= hi < |operands|
    ensures Spells(Grouping(operands, ops, lo, hi), operands, ops, lo, hi)
    decreases hi - lo
  {
    hide Loosest, Spells, Grouping;
    if lo == hi {
      OneLeaf(operands, ops, lo);
    } else {
      GroupingSplit(operands, ops, lo, hi);
      var k := Loosest(ops, lo, hi);
      GroupingSpells(operands, ops, lo, k);
      GroupingSpells(operands, ops, k + 1, hi);
      NodeSpells(operands, ops, Grouping(operands, ops, lo, k), Grouping(operands, ops, k + 1, hi), lo, k, hi);
    }
  }

  lemma OneLeaf(operands: seq<Expr>, ops: seq<BinaryOp>, i: nat)
    requires Chain(operands, ops) && i < |operands|
    ensures Grouping(operands, ops, i, i) == Leaf(operands[i]) && Spells(Leaf(operands[i]), operands, ops, i, i)
  {
  }

  // ---- legal programs ----

  ghost predicate OperandsWellFormed(operands: seq<Expr>) {
    forall k :: 0 <= k < |operands| ==> WellFormedExpr(operands[k])
  }

  /** Every assignment comes before all other operators, and its left operand is an l-value. */
  ghost predicate LegalAssignments(operands: seq<Expr>, ops: seq<BinaryOp>, lo: nat, hi: nat)
    requires Chain(operands, ops) && lo <= hi < |operands|
  {
    forall k :: lo <= k < hi && ops[k] == Assign ==> IsLValue(operands[k]) && forall x :: lo <= x < k ==> ops[x] == Assign
  }

  /** A chain groups into a legal expression exactly if its assignments are legal. */
  lemma {:induction false} LegalExactly(operands: seq<Expr>, ops: seq<BinaryOp>, lo: nat, hi: nat)
    requires Chain(operands, ops) && lo <= hi < |operands| && OperandsWellFormed(operands)
    ensures WellFormedExpr(ToExpr(Grouping(operands, ops, lo, hi))) <==> LegalAssignments(operands, ops, lo, hi)
    decreases hi - lo
  {
    hide WellFormedExpr, IsLValue, LegalAssignments, Loosest;
    if lo < hi {
      var k := Loosest(ops, lo, hi);
      LegalExactly(operands, ops, lo, k);
      LegalExactly(operands, ops, k + 1, hi);
      NodeWellFormed(ops[k], Grouping(operands, ops, lo, k), Grouping(operands, ops, k + 1, hi));
      NoAssignmentIsLegal(operands, ops, lo, k);
      if ops[k] != Assign {
        NoAssignmentIsLegal(operands, ops, lo, hi);
        NoAssignmentIsLegal(operands, ops, k + 1, hi);
      } else if k == lo {
        LegalAfterAssign(operands, ops, lo, hi);
      } else {
        NoLValue(operands, ops, lo, k);
        IllegalAfterOther(operands, ops, lo, hi, k);
      }
    } else {
      NoAssignmentIsLegal(operands, ops, lo, hi);
    }
  }

  lemma NodeWellFormed(op: BinaryOp, l: Tree, r: Tree)
    ensures WellFormedExpr(ToExpr(Node(op, l, r))) <==>
            WellFormedExpr(ToExpr(l)) && WellFormedExpr(ToExpr(r)) && (op == Assign ==> IsLValue(ToExpr(l)))
  {
  }

  lemma NoAssignmentIsLegal(operands: seq<Expr>, ops: seq<BinaryOp>, lo: nat, hi: nat)
    requires Chain(operands, ops) && lo <= hi < |operands| && forall x :: lo <= x < hi ==> ops[x] != Assign
    ensures LegalAssignments(operands, ops, lo, hi)
  {
  }

  lemma IllegalAfterOther(operands: seq<Expr>, ops: seq<BinaryOp>, lo: nat, hi: nat, k: nat)
    requires Chain(operands, ops) && lo < k < hi < |operands| && ops[k] == Assign && ops[lo] != Assign
    ensures !LegalAssignments(operands, ops, lo, hi)
  {
  }

  lemma LegalAfterAssign(operands: seq<Expr>, ops: seq<BinaryOp>, lo: nat, hi: nat)
    requires Chain(operands, ops) && lo < hi < |operands| && ops[lo] == Assign
    ensures LegalAssignments(operands, ops, lo, hi) <==> IsLValue(operands[lo]) && LegalAssignments(operands, ops, lo + 1, hi)
  {
    if IsLValue(operands[lo]) && LegalAssignments(operands, ops, lo + 1, hi) {
      forall k | lo <= k < hi && ops[k] == Assign
        ensures IsLValue(operands[k]) && forall x :: lo <= x < k ==> ops[x] == Assign
      {
        assert k > lo ==> forall x :: lo + 1 <= x < k ==> ops[x] == Assign;
      }
    }
  }

  lemma NoLValue(operands: seq<Expr>, ops: seq<BinaryOp>, lo: nat, hi: nat)
    requires Chain(operands, ops) && lo < hi < |operands| && forall x :: lo <= x < hi ==> ops[x] != Assign
    ensures !IsLValue(ToExpr(Grouping(operands, ops, lo, hi)))
  {
  }

  // ---- equal meaning ----

  /** Same operands in the same order, and the same value and effects from every store. */
  ghost predicate Same(a: Tree, b: Tree) {
    && Leaves(a) == Leaves(b)
    && WellFormedExpr(ToExpr(a)) && WellFormedExpr(ToExpr(b))
    && (IsLValue(ToExpr(a)) <==> IsLValue(ToExpr(b)))
    && (IsLValue(ToExpr(a)) ==> Target(ToExpr(a)) == Target(ToExpr(b)))
    && forall s: Store :: SameFrom(a, b, s)
  }

  ghost predicate SameFrom(a: Tree, b: Tree, s: Store)
    requires WellFormedExpr(ToExpr(a)) && WellFormedExpr(ToExpr(b))
  {
    Eval(ToExpr(a), s) == Eval(ToExpr(b), s)
  }

  lemma SameTrans(a: Tree, b: Tree, c: Tree)
    requires Same(a, b) && Same(b, c)
    ensures Same(a, c)
  {
    hide Eval, WellFormedExpr, IsLValue, Target, ToExpr;
    forall s: Store
      ensures SameFrom(a, c, s)
    {
      assert SameFrom(a, b, s) && SameFrom(b, c, s);
    }
  }

  lemma SameNode(op: BinaryOp, a: Tree, b: Tree, c: Tree, d: Tree)
    requires Same(a, c) && Same(b, d) && (op == Assign ==> IsLValue(ToExpr(a)))
    ensures Same(Node(op, a, b), Node(op, c, d))
  {
    var x, y := Node(op, a, b), Node(op, c, d);
    forall s: Store
      ensures SameFrom(x, y, s)
    {
      assert SameFrom(a, c, s);
      assert SameFrom(b, d, Eval(ToExpr(a), s).store);
    }
  }

  predicate Swappable(op: BinaryOp) {
    op == Add || op == Mul
  }

  lemma WrapAdd(a: int, b: int, c: int)
    ensures Wrap(Wrap(a + b) + c) == Wrap(a + Wrap(b + c))
  {
    WrapIs(a + b);
    WrapIs(b + c);
    WrapSame(Wrap(a + b) + c, a + Wrap(b + c), (Wrap(a + b) - (a + b)) / TWO_32 + (b + c - Wrap(b + c)) / TWO_32);
  }

  lemma WrapIs(a: int)
    ensures Wrap(a) == a + TWO_32 * ((Wrap(a) - a) / TWO_32)
  {
  }

  lemma WrapSame(a: int, b: int, q: int)
    requires a == b + TWO_32 * q
    ensures Wrap(a) == Wrap(b)
  {
  }

  lemma WrapMul(a: int, b: int, c: int)
    ensures Wrap(Wrap(a * b) * c) == Wrap(a * Wrap(b * c))
  {
    WrapIs(a * b);
    WrapIs(b * c);
    var i, j := (Wrap(a * b) - a * b) / TWO_32, (Wrap(b * c) - b * c) / TWO_32;
    Distribute(a * b, TWO_32 * i, c);
    Distribute(b * c, TWO_32 * j, a);
    assert Wrap(a * b) * c == a * b * c + TWO_32 * i * c;
    assert a * Wrap(b * c) == b * c * a + TWO_32 * j * a;
    Rearrange(a, b, c);
    Rearrange(TWO_32, i, c);
    Rearrange(TWO_32, j, a);
    Distribute(i * c - j * a, j * a, TWO_32);
    WrapSame(Wrap(a * b) * c, a * Wrap(b * c), i * c - j * a);
  }

  lemma Distribute(a: int, b: int, c: int)
    ensures (a + b) * c == a * c + b * c && c * (a + b) == a * c + b * c
  {
  }

  lemma Rearrange(a: int, b: int, c: int)
    ensures a * b * c == b * c * a && a * b * c == a * (b * c)
  {
    var p := b * c;
    assert a * p == p * a;
  }

  /** `+` and `*` may be regrouped. */
  lemma Regroup(op: BinaryOp, a: Tree, b: Tree, c: Tree)
    requires Swappable(op) && WellFormedExpr(ToExpr(a)) && WellFormedExpr(ToExpr(b)) && WellFormedExpr(ToExpr(c))
    ensures Same(Node(op, Node(op, a, b), c), Node(op, a, Node(op, b, c)))
  {
    hide WellFormedExpr, IsLValue, Eval, BinaryValue, ToExpr, Leaves, Target, SameFrom;
    var l, r := Node(op, Node(op, a, b), c), Node(op, a, Node(op, b, c));
    PlainNode(op, a, b);
    PlainNode(op, b, c);
    PlainNode(op, Node(op, a, b), c);
    PlainNode(op, a, Node(op, b, c));
    RegroupLeaves(op, a, b, c);
    forall s: Store
      ensures SameFrom(l, r, s)
    {
      RegroupFrom(op, a, b, c, s);
    }
  }

  lemma RegroupLeaves(op: BinaryOp, a: Tree, b: Tree, c: Tree)
    ensures Leaves(Node(op, Node(op, a, b), c)) == Leaves(Node(op, a, Node(op, b, c)))
  {
    assert Leaves(a) + Leaves(b) + Leaves(c) == Leaves(a) + (Leaves(b) + Leaves(c));
  }

  lemma RegroupFrom(op: BinaryOp, a: Tree, b: Tree, c: Tree, s: Store)
    requires Swappable(op) && WellFormedExpr(ToExpr(a)) && WellFormedExpr(ToExpr(b)) && WellFormedExpr(ToExpr(c))
    ensures WellFormedExpr(ToExpr(Node(op, Node(op, a, b), c))) && WellFormedExpr(ToExpr(Node(op, a, Node(op, b, c))))
    ensures SameFrom(Node(op, Node(op, a, b), c), Node(op, a, Node(op, b, c)), s)
  {
    PlainNode(op, a, b);
    PlainNode(op, b, c);
    PlainNode(op, Node(op, a, b), c);
    PlainNode(op, a, Node(op, b, c));
    hide WellFormedExpr, Eval, BinaryValue, ToExpr;
    var oa := Eval(ToExpr(a), s);
    var ob := Eval(ToExpr(b), oa.store);
    var oc := Eval(ToExpr(c), ob.store);
    RegroupValues(op, oa.value, ob.value, oc.value);
    PlainEval(op, a, b, s);
    PlainEval(op, Node(op, a, b), c, s);
    PlainEval(op, b, c, oa.store);
    PlainEval(op, a, Node(op, b, c), s);
  }

  lemma PlainNode(op: BinaryOp, l: Tree, r: Tree)
    requires Swappable(op) && WellFormedExpr(ToExpr(l)) && WellFormedExpr(ToExpr(r))
    ensures WellFormedExpr(ToExpr(Node(op, l, r))) && !IsLValue(ToExpr(Node(op, l, r)))
  {
  }

  lemma PlainEval(op: BinaryOp, l: Tree, r: Tree, s: Store)
    requires Swappable(op) && WellFormedExpr(ToExpr(l)) && WellFormedExpr(ToExpr(r))
    ensures WellFormedExpr(ToExpr(Node(op, l, r)))
    ensures var ol := Eval(ToExpr(l), s);
            var or := Eval(ToExpr(r), ol.store);
            Eval(ToExpr(Node(op, l, r)), s) == Outcome(BinaryValue(op, ol.value, or.value), or.store)
  {
  }

  lemma RegroupValues(op: BinaryOp, a: int, b: int, c: int)
    requires Swappable(op)
    ensures BinaryValue(op, BinaryValue(op, a, b), c) == BinaryValue(op, a, BinaryValue(op, b, c))
  {
    if op == Add {
      WrapAdd(a, b, c);
    } else {
      WrapMul(a, b, c);
    }
  }

  // ---- joining two groups ----

  /** Operator `op` may take everything up to and including `x` to its right. */
  predicate Binds(op: BinaryOp, x: BinaryOp) {
    Priority(x) < Priority(op) || op == Assign || (Swappable(op) && x == op)
  }

  /** Operator `op` may take everything from `x` on to its left. */
  predicate Follows(x: BinaryOp, op: BinaryOp) {
    x != Assign && Priority(x) <= Priority(op)
  }

  lemma {:induction false} JoinGroups(operands: seq<Expr>, ops: seq<BinaryOp>, lo: nat, j: nat, hi: nat)
    requires Chain(operands, ops) && lo <= j < hi < |operands| && OperandsWellFormed(operands) && LegalAssignments(operands, ops, lo, hi)
    requires forall x :: lo <= x < j ==> Follows(ops[x], ops[j])
    requires forall x :: j < x < hi ==> Binds(ops[j], ops[x])
    ensures Same(Node(ops[j], Grouping(operands, ops, lo, j), Grouping(operands, ops, j + 1, hi)), Grouping(operands, ops, lo, hi))
    decreases hi - j
  {
    hide WellFormedExpr, Same, Loosest, LegalAssignments, ToExpr, Grouping;
    LegalExactly(operands, ops, lo, hi);
    GroupingSplit(operands, ops, lo, hi);
    if Loosest(ops, lo, hi) == j {
      SameSelf(Grouping(operands, ops, lo, hi));
    } else {
      RightOf(ops, lo, j, hi);
      var k: nat := Loosest(ops, lo, hi);
      GroupingSplit(operands, ops, j + 1, hi);
      var op, l, m, e := ops[j], Grouping(operands, ops, lo, j), Grouping(operands, ops, j + 1, k), Grouping(operands, ops, k + 1, hi);
      var lm := Grouping(operands, ops, lo, k);
      GroupLegal(operands, ops, lo, hi, lo, j);
      GroupLegal(operands, ops, lo, hi, j + 1, k);
      GroupLegal(operands, ops, lo, hi, k + 1, hi);
      GroupLegal(operands, ops, lo, hi, lo, k);
      JoinGroups(operands, ops, lo, j, k);
      JoinByRegroup(op, l, m, e, lm);
    }
  }

  lemma JoinByRegroup(op: BinaryOp, l: Tree, m: Tree, e: Tree, lm: Tree)
    requires Swappable(op) && WellFormedExpr(ToExpr(l)) && WellFormedExpr(ToExpr(m)) && WellFormedExpr(ToExpr(e))
    requires Same(Node(op, l, m), lm)
    ensures Same(Node(op, l, Node(op, m, e)), Node(op, lm, e))
  {
    hide WellFormedExpr, Same, ToExpr;
    SameSelf(e);
    SameNode(op, Node(op, l, m), e, lm, e);
    Regroup(op, l, m, e);
    SameSymmetric(Node(op, Node(op, l, m), e), Node(op, l, Node(op, m, e)));
    SameTrans(Node(op, l, Node(op, m, e)), Node(op, Node(op, l, m), e), Node(op, lm, e));
  }

  lemma GroupLegal(operands: seq<Expr>, ops: seq<BinaryOp>, lo: nat, hi: nat, lo': nat, hi': nat)
    requires Chain(operands, ops) && OperandsWellFormed(operands)
    requires lo <= lo' <= hi' <= hi < |operands| && LegalAssignments(operands, ops, lo, hi)
    ensures LegalAssignments(operands, ops, lo', hi') && WellFormedExpr(ToExpr(Grouping(operands, ops, lo', hi')))
  {
    LegalExactly(operands, ops, lo', hi');
  }

  /** If the chain does not split at `j`, it splits at an equal swappable operator further right. */
  lemma RightOf(ops: seq<BinaryOp>, lo: nat, j: nat, hi: nat)
    requires lo <= j < hi <= |ops| && Loosest(ops, lo, hi) != j
    requires forall x :: lo <= x < j ==> Follows(ops[x], ops[j])
    requires forall x :: j < x < hi ==> Binds(ops[j], ops[x])
    ensures var k := Loosest(ops, lo, hi);
            k > j && ops[k] == ops[j] && Swappable(ops[j]) && Loosest(ops, j + 1, hi) == k
  {
    var k := Loosest(ops, lo, hi);
    assert Priority(ops[k]) == 12 <==> ops[k] == Assign;
    assert Priority(ops[j]) == 12 <==> ops[j] == Assign;
    if k > j {
      LoosestIs(ops, j + 1, hi, k);
    }
  }

  lemma SameSelf(a: Tree)
    requires WellFormedExpr(ToExpr(a))
    ensures Same(a, a)
  {
  }

  lemma SameSymmetric(a: Tree, b: Tree)
    requires Same(a, b)
    ensures Same(b, a)
  {
    hide Eval, WellFormedExpr, IsLValue, Target, ToExpr;
    forall s: Store
      ensures SameFrom(b, a, s)
    {
      assert SameFrom(a, b, s);
    }
  }
}
