/**
 Two parsers for chains of binary operators: precedence climbing, and a faster one with two
 stacks that also balances runs of `+` and of `*`. Climbing gives the tree of the grammar;
 the fast one gives a tree with the same operands in the same order and the same meaning.
 */
module BinaryParser {
  import opened Options
  import opened Ast
  import opened BinaryGrammar
  import opened OperatorStacks
  import opened ParserAcceptance

  /** Climbing with bound `priority` goes on past `op`. */
  predicate Continues(op: BinaryOp, priority: nat) {
    Priority(op) < priority || (Priority(op) == priority && !IsLeftAssociative(op))
  }

  class Parser {
    const operands: seq<Expr>
    const ops: seq<BinaryOp>
    /** Tokens consumed: operands and operators alternate. */
    var pos: nat

    ghost predicate Valid() {
      Chain(operands, ops)
    }

    constructor (operands: seq<Expr>, ops: seq<BinaryOp>)
      requires Chain(operands, ops)
      ensures Valid() && this.operands == operands && this.ops == ops && pos == 0
    {
      this.operands, this.ops, pos := operands, ops, 0;
    }

    method ParseUnaryExpr() returns (e: Expr)
      requires Valid() && pos % 2 == 0 && pos / 2 < |operands|
      modifies this`pos
      ensures e == operands[old(pos) / 2] && pos == old(pos) + 1
    {
      e := operands[pos / 2];
      pos := pos + 1;
    }

    /** The operator ahead, or nothing at a semicolon, a comma or a right bracket. */
    function Token(): Option<BinaryOp>
      reads this`pos
    {
      if pos / 2 < |ops| then Some(ops[pos / 2]) else None
    }

    method Next()
      modifies this`pos
      ensures pos == old(pos) + 1
    {
      pos := pos + 1;
    }

    /** Precedence climbing: the tree of the grammar, up to the first operator that does not belong. */
    method ParseBinaryExprWithPriority(priority: nat) returns (t: Tree)
      requires Valid() && pos % 2 == 0 && pos / 2 < |operands|
      modifies this`pos
      ensures pos % 2 == 1 && old(pos) < pos && pos / 2 <= |ops|
      ensures t == Grouping(operands, ops, old(pos) / 2, pos / 2)
      ensures forall x :: old(pos) / 2 <= x < pos / 2 ==> Continues(ops[x], priority)
      ensures pos / 2 < |ops| ==> !Continues(ops[pos / 2], priority)
      ensures priority > 12 ==> pos == 2 * |ops| + 1 && Token() == None
      decreases 2 * |ops| + 1 - pos
    {
      hide Grouping, Loosest;
      ghost var first := pos / 2;
      OneLeaf(operands, ops, first);
      var e := ParseUnaryExpr();
      t := Leaf(e);
      var op := Token();
      while op.Some? && Continues(op.value, priority)
        invariant pos % 2 == 1 && old(pos) < pos && pos / 2 <= |ops| && op == Token()
        invariant t == Grouping(operands, ops, first, pos / 2)
        invariant forall x :: first <= x < pos / 2 ==> Continues(ops[x], priority)
        invariant op.Some? ==> forall x :: first <= x < pos / 2 ==> Follows(ops[x], op.value)
        decreases 2 * |ops| + 1 - pos
      {
        ghost var k := pos / 2;
        Next();
        var rhs := ParseBinaryExprWithPriority(Priority(op.value));
        LoosestIs(ops, first, pos / 2, k);
        GroupingSplit(operands, ops, first, pos / 2);
        t := Node(op.value, t, rhs);
        op := Token();
      }
    }

    /** How far the run of operator `i` goes. */
    method RunEnd(cur: seq<Option<BinaryOp>>, i: nat) returns (seqLast: nat)
      requires i < |cur|
      ensures i <= seqLast < |cur| && (forall x :: i <= x <= seqLast ==> cur[x] == cur[i])
      ensures seqLast + 1 < |cur| ==> cur[seqLast + 1] != cur[i]
    {
      seqLast := i + 1;
      while seqLast < |cur| && cur[seqLast] == cur[i]
        invariant i < seqLast <= |cur| && forall x :: i <= x < seqLast ==> cur[x] == cur[i]
      {
        seqLast := seqLast + 1;
      }
      seqLast := seqLast - 1;
    }

    /** The stretch of a run of `+` or `*` at `i` that its neighbours leave free to be balanced. */
    method FreeRun(cur: seq<Option<BinaryOp>>, i: nat) returns (seqFirst: nat, seqLast: int)
      requires i < |cur| == |ops| && Swappable(ops[i])
      requires Unread(ops, cur, i)
      ensures seqFirst == i ==> i == 0 || ops[i - 1] == ops[i] || Priority(ops[i - 1]) > Priority(ops[i])
      ensures !(seqFirst == i && seqFirst < seqLast) ==> PassedBy(ops, i)
      ensures i - 1 <= seqLast < |ops| && forall x :: i <= x <= seqLast ==> ops[x] == ops[i]
      ensures i <= seqLast && seqLast + 1 < |ops| ==> if ops[seqLast + 1] == ops[i] then EndsRun(ops, seqLast + 1) else Priority(ops[i]) < Priority(ops[seqLast + 1])
      ensures 0 < i && EndsRun(ops, i) ==> !(seqFirst == i && seqFirst < seqLast)
    {
      seqFirst := i;
      seqLast := RunEnd(cur, i);
      assert forall x :: i <= x <= seqLast ==> ops[x] == ops[i];
      if seqFirst > 0 {
        var prevOp := cur[seqFirst - 1];
        if prevOp.Some? && prevOp.value != ops[i] {
          if Priority(prevOp.value) <= Priority(ops[i]) {
            seqFirst := seqFirst + 1;
          }
        }
      }
      if seqLast + 1 < |cur| {
        assert cur[seqLast + 1] == Some(ops[seqLast + 1]);
        if Priority(cur[seqLast + 1].value) <= Priority(ops[i]) {
          seqLast := seqLast - 1;
        }
      }
    }

    /**
     Two stacks. Whatever the operators are, operands and operators keep their order; and whenever the
     grammar makes the input a legal expression, the tree means the same as the one of the grammar.
     Legal trees come out exactly if every assignment fits. All tokens are consumed: the parser stands at
     the semicolon, comma or right bracket.
     */
    method ParseBinaryExpr() returns (t: Tree)
      requires Valid() && pos == 0
      modifies this`pos
      ensures pos == 2 * |ops| + 1 && Token() == None
      ensures Leaves(t) == operands && Operators(t) == ops
      ensures IsLegal(operands, ops) ==> Same(t, Grouping(operands, ops, 0, |ops|))
      ensures OperandsWellFormed(operands) ==> (WellFormedExpr(ToExpr(t)) <==> AllFit(operands, ops, 0))
    {
      var list, cur := ReadTokens();
      if cur == [] {
        t := Leaf(list[0]);
        if OperandsWellFormed(operands) {
          OneLeaf(operands, ops, 0);
          SameSelf(t);
        }
        return;
      }
      t := CombineTokens(list, cur);
    }

    method CombineTokens(list: seq<Expr>, cur0: seq<Option<BinaryOp>>) returns (t: Tree)
      requires Valid() && list == operands && |cur0| == |ops| && forall x :: 0 <= x < |ops| ==> cur0[x] == Some(ops[x])
      ensures Leaves(t) == operands && Operators(t) == ops
      ensures IsLegal(operands, ops) ==> Same(t, Grouping(operands, ops, 0, |ops|))
      ensures OperandsWellFormed(operands) ==> (WellFormedExpr(ToExpr(t)) <==> AllFit(operands, ops, 0))
    {
      hide Same, Grouping, Meaningful, Arranged, TopFollows, TopBinds, AfterRun, EndsRun, FoldExprList, AllFit, Leaves, Operators, Spells, Accepting, PassedBy, OperandsWellFormed, IsLegal;
      var cur := cur0;
      var stack: seq<Tree> := [Leaf(list[0])];
      var opStack: OpStack := [];
      var i: nat := 0;
      Initially(operands, ops);
      if OperandsWellFormed(operands) {
        AcceptingInitially(operands, ops);
      }
      while i < |cur|
        invariant |cur| == |ops| && i <= |ops| && Unread(ops, cur, i)
        invariant Arranged(operands, ops, stack, opStack, i) && AfterRun(ops, opStack, i)
        invariant IsLegal(operands, ops) ==> Meaningful(operands, ops, stack, opStack, i) && TopFollows(ops, opStack, i)
        invariant OperandsWellFormed(operands) ==> Accepting(operands, ops, stack, opStack, i)
      {
        ArrangedSizes(operands, ops, stack, opStack, i);
        var op := cur[i].value;
        if IsLeftAssociative(op) {
          var run := None;
          if op == Add || op == Mul {
            var seqFirst, seqLast := FreeRun(cur, i);
            if i == seqFirst && seqFirst < seqLast {
              run := Some(seqLast);
            }
          }
          if run.Some? {
            TakeRun(operands, ops, stack, opStack, i, run.value, IsLegal(operands, ops));
            RunAccepted(operands, ops, stack, opStack, i, run.value);
            stack := stack[..|stack| - 1] + [FoldExprList(op, list, i, run.value + 1)];
            i := run.value + 1;
            continue;
          }
          stack, opStack, cur := ReduceTighter(stack, opStack, cur, i);
        } else {
          AssignmentPushes(operands, ops, stack, opStack, i, IsLegal(operands, ops));
        }
        Pushed(operands, ops, stack, opStack, i, IsLegal(operands, ops));
        if !Swappable(op) {
          OthersPass(ops, i);
        }
        if OperandsWellFormed(operands) {
          AcceptingPush(operands, ops, stack, opStack, i);
        }
        stack := stack + [Leaf(list[i + 1])];
        opStack := opStack + [(i, op)];
        i := i + 1;
      }
      if OperandsWellFormed(operands) {
        UnwindingStarts(operands, ops, stack, opStack);
      }
      t := JoinRest(stack, opStack);
    }

    /** The operators still waiting take their groups, the last one first. */
    method JoinRest(stack0: seq<Tree>, opStack0: OpStack) returns (t: Tree)
      requires Valid() && Arranged(operands, ops, stack0, opStack0, |ops|)
      requires IsLegal(operands, ops) ==> Meaningful(operands, ops, stack0, opStack0, |ops|)
      requires OperandsWellFormed(operands) ==> Unwinding(operands, ops, stack0, opStack0)
      ensures Leaves(t) == operands && Operators(t) == ops
      ensures IsLegal(operands, ops) ==> Same(t, Grouping(operands, ops, 0, |ops|))
      ensures OperandsWellFormed(operands) ==> (WellFormedExpr(ToExpr(t)) <==> AllFit(operands, ops, 0))
    {
      hide Same, Grouping, Meaningful, Arranged, Leaves, Operators, Spells, IsLegal, OperandsWellFormed, Unwinding;
      var stack, opStack := stack0, opStack0;
      while opStack != []
        invariant Arranged(operands, ops, stack, opStack, |ops|)
        invariant IsLegal(operands, ops) ==> Meaningful(operands, ops, stack, opStack, |ops|)
        invariant OperandsWellFormed(operands) ==> Unwinding(operands, ops, stack, opStack)
        decreases |opStack|
      {
        ArrangedSizes(operands, ops, stack, opStack, |ops|);
        var top := opStack[|opStack| - 1].1;
        ReducedBoth(operands, ops, stack, opStack, |ops|, IsLegal(operands, ops));
        if OperandsWellFormed(operands) {
          UnwindingStep(operands, ops, stack, opStack);
        }
        opStack := opStack[..|opStack| - 1];
        stack := Reduced(stack, top);
      }
      Finally(operands, ops, stack, IsLegal(operands, ops));
      if OperandsWellFormed(operands) {
        UnwindingEnds(operands, ops, stack);
      }
      t := stack[0];
    }

    /** Join groups as long as the operator on top binds at least as tightly as operator `i`. */
    method ReduceTighter(stack0: seq<Tree>, opStack0: OpStack, cur0: seq<Option<BinaryOp>>, i: nat)
      returns (stack: seq<Tree>, opStack: OpStack, cur: seq<Option<BinaryOp>>)
      requires Valid() && i < |ops| == |cur0| && Unread(ops, cur0, i) && IsLeftAssociative(ops[i])
      requires Arranged(operands, ops, stack0, opStack0, i)
      requires IsLegal(operands, ops) ==> Meaningful(operands, ops, stack0, opStack0, i) && TopFollows(ops, opStack0, i)
      ensures |cur| == |ops| && Unread(ops, cur, i + 1)
      requires OperandsWellFormed(operands) ==> Accepting(operands, ops, stack0, opStack0, i)
      ensures Arranged(operands, ops, stack, opStack, i) && TopBinds(ops, opStack, i)
      ensures OperandsWellFormed(operands) ==> Accepting(operands, ops, stack, opStack, i)
      ensures IsLegal(operands, ops) ==> Meaningful(operands, ops, stack, opStack, i) && TopFollows(ops, opStack, i)
    {
      hide Same, Grouping, Meaningful, Arranged, TopFollows, Leaves, Operators, Spells, Accepting, OperandsWellFormed;
      stack, opStack, cur := stack0, opStack0, cur0;
      while opStack != [] && IsLeftAssociative(opStack[|opStack| - 1].1) && Priority(opStack[|opStack| - 1].1) <= Priority(ops[i])
        invariant |cur| == |ops| && Unread(ops, cur, i + 1)
        invariant Arranged(operands, ops, stack, opStack, i)
        invariant IsLegal(operands, ops) ==> Meaningful(operands, ops, stack, opStack, i) && TopFollows(ops, opStack, i)
        invariant OperandsWellFormed(operands) ==> Accepting(operands, ops, stack, opStack, i)
        decreases |opStack|
      {
        ArrangedSizes(operands, ops, stack, opStack, i);
        var index, lastOp := opStack[|opStack| - 1].0, opStack[|opStack| - 1].1;
        if IsLegal(operands, ops) {
          ReduceTopFollows(operands, ops, stack, opStack, i);
        }
        if OperandsWellFormed(operands) {
          AcceptingReduce(operands, ops, stack, opStack, i);
        }
        ReducedBoth(operands, ops, stack, opStack, i, IsLegal(operands, ops));
        stack := Reduced(stack, lastOp);
        cur := cur[index := if index == 0 then None else cur[index - 1]];
        opStack := opStack[..|opStack| - 1];
      }
    }

    /** Collect operands and operators up to the end of the expression. */
    method ReadTokens() returns (list: seq<Expr>, cur: seq<Option<BinaryOp>>)
      requires Valid() && pos == 0
      modifies this`pos
      ensures pos == 2 * |ops| + 1 && Token() == None
      ensures list == operands && |cur| == |ops| && forall x :: 0 <= x < |ops| ==> cur[x] == Some(ops[x])
    {
      var first := ParseUnaryExpr();
      list, cur := [first], [];
      var tok := Token();
      while tok.Some?
        invariant pos % 2 == 1 && pos / 2 == |cur| && |list| == |cur| + 1 && |cur| <= |ops| && tok == Token()
        invariant list == operands[..|list|] && forall x :: 0 <= x < |cur| ==> cur[x] == Some(ops[x])
        decreases |ops| - |cur|
      {
        cur := cur + [tok];
        Next();
        var e := ParseUnaryExpr();
        list := list + [e];
        tok := Token();
      }
    }
  }

  /** Both parsers, each on its own tokens: they stop at the same place, behind all of them. */
  method ParseTwice(operands: seq<Expr>, ops: seq<BinaryOp>, priority: nat) returns (climbed: Tree, balanced: Tree, stop: nat, stop': nat)
    requires Chain(operands, ops) && priority > 12
    ensures stop == stop' == |operands| + |ops|
    ensures climbed == Grouping(operands, ops, 0, |ops|)
    ensures Leaves(balanced) == operands && Operators(balanced) == ops
    ensures IsLegal(operands, ops) ==> Same(balanced, climbed)
  {
    hide Same, Grouping, Leaves, Operators, IsLegal;
    var slow := new Parser(operands, ops);
    climbed := slow.ParseBinaryExprWithPriority(priority);
    var fast := new Parser(operands, ops);
    balanced := fast.ParseBinaryExpr();
    stop, stop' := slow.pos, fast.pos;
  }

  /** `a + b = c` is not an expression of the grammar, yet the two stacks make an assignment within an addition of it. */
  method SumAssigned(a: nat, b: nat, c: nat) returns (t: Tree)
    ensures t == Node(Add, Leaf(Var(a)), Node(Assign, Leaf(Var(b)), Leaf(Var(c))))
    ensures !IsLegal([Var(a), Var(b), Var(c)], [Add, Assign])
  {
    FitsThoughIllegal(a, b, c);
    var parser := new Parser([Var(a), Var(b), Var(c)], [Add, Assign]);
    t := parser.ParseBinaryExpr();
    AssignsFirst(t, a, b, c);
  }
}
