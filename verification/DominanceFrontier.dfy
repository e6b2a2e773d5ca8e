/**
 Dominance frontiers by walking up the dominator tree from the predecessors of
 every join, and the placement of phi nodes on the iterated frontier.
 */
module DominanceFrontier {
  import opened Digraph
  import DominatorSolver

  /** `b` is where the dominance of `x` ends: `x` dominates a predecessor of `b` but not `b` strictly. */
  ghost predicate InFrontier(g: Graph, x: nat, b: nat) {
    exists p: nat :: EndsAt(g, x, p, b)
  }

  ghost predicate EndsAt(g: Graph, x: nat, p: nat, b: nat) {
    x < |g.succs| && Edge(g, p, b) && Dom(g, x, p) && !SDom(g, x, b)
  }

  /** The predecessor lists of the blocks are the edges of `g` read backwards. */
  ghost predicate PredsOf(g: Graph, preds: seq<seq<nat>>) {
    && ValidGraph(g)
    && |preds| == |g.succs|
    && forall b: nat, p: nat {:trigger p in preds[b]} :: b < |preds| ==> (p in preds[b] <==> Edge(g, p, b))
  }

  /** `idom` is the dominator tree, the entry standing for itself. */
  ghost predicate IdomsOf(g: Graph, idom: seq<nat>) {
    && |idom| == |g.succs| > 0
    && idom[0] == 0
    && forall b: nat :: 0 < b < |idom| ==> IsIdom(g, idom[b], b)
  }

  ghost function Dominators(g: Graph, b: nat): set<nat> {
    set x: nat | x < |g.succs| && Dom(g, x, b)
  }

  lemma IdomInRange(g: Graph, d: nat, b: nat)
    requires ValidGraph(g) && Reachable(g, b) && Dom(g, d, b)
    ensures d < |g.succs|
  {
    var p :| PathBetween(g, p, 0, b);
    assert d in p;
  }

  /** Going up the dominator tree loses exactly the block itself. */
  lemma DominatorsShrink(g: Graph, idom: seq<nat>, b: nat)
    requires ValidGraph(g) && AllReachable(g) && IdomsOf(g, idom) && 0 < b < |idom|
    ensures idom[b] < |idom| && Dominators(g, idom[b]) < Dominators(g, b)
    ensures forall x: nat :: x < |idom| ==> (Dom(g, x, b) <==> x == b || Dom(g, x, idom[b]))
  {
    assert Reachable(g, b) && IsIdom(g, idom[b], b);
    IdomInRange(g, idom[b], b);
    DomReflexive(g, b);
    forall x: nat | x < |idom|
      ensures Dom(g, x, b) <==> x == b || Dom(g, x, idom[b])
    {
      SDomIffDomIdom(g, x, idom[b], b);
    }
    assert b in Dominators(g, b) && b !in Dominators(g, idom[b]) by {
      SDomIffDomIdom(g, b, idom[b], b);
    }
  }

  /** A block with a single predecessor is in no frontier. */
  lemma SinglePredNoFrontier(g: Graph, p: nat, b: nat, x: nat)
    requires ValidGraph(g) && AllReachable(g) && 0 < b < |g.succs|
    requires forall q: nat :: Edge(g, q, b) ==> q == p
    requires Edge(g, p, b) && Dom(g, x, p)
    ensures SDom(g, x, b)
  {
    forall q | PathBetween(g, q, 0, b)
      ensures x in q
    {
      PredOnPath(g, p, b, x, q);
    }
    assert Reachable(g, b);
    var r :| PathBetween(g, r, 0, b);
    var q := FirstVisit(g, r, b);
    PredOnPath(g, p, b, x, q);
  }

  lemma PredOnPath(g: Graph, p: nat, b: nat, x: nat, q: seq<nat>)
    requires ValidGraph(g) && 0 < b && PathBetween(g, q, 0, b)
    requires (forall q: nat :: Edge(g, q, b) ==> q == p) && Dom(g, x, p)
    ensures x in q[..|q| - 1]
  {
    assert |q| >= 2 && Edge(g, q[|q| - 2], q[|q| - 1]);
    Subpath(g, q, 0, |q| - 1);
    assert q[0..|q| - 1] == q[..|q| - 1];
  }

  /** The blocks that the walk from `p` has passed when it stands at `r`. */
  ghost predicate Passed(g: Graph, p: nat, r: nat, x: nat) {
    Dom(g, x, p) && !Dom(g, x, r)
  }

  /** What one finished walk contributes. */
  lemma WalkIsExact(g: Graph, idom: seq<nat>, p: nat, b: nat)
    requires ValidGraph(g) && AllReachable(g) && IdomsOf(g, idom) && 0 < b < |idom| && Edge(g, p, b)
    ensures forall x: nat :: x < |idom| ==> (Passed(g, p, idom[b], x) <==> EndsAt(g, x, p, b))
  {
    forall x: nat | x < |idom|
      ensures Passed(g, p, idom[b], x) <==> EndsAt(g, x, p, b)
    {
      SDomIffDomIdom(g, x, idom[b], b);
    }
  }

  /** Walk up from predecessor `p` to the immediate dominator of `b`, adding `b` to every frontier on the way. */
  method WalkUp(ghost g: Graph, idom: seq<nat>, p: nat, b: nat, domfr0: seq<set<nat>>) returns (domfr: seq<set<nat>>)
    requires ValidGraph(g) && AllReachable(g) && IdomsOf(g, idom) && |domfr0| == |idom|
    requires 0 < b < |idom| && Edge(g, p, b)
    ensures |domfr| == |domfr0|
    ensures forall x: nat, c: nat :: x < |domfr| ==>
              (c in domfr[x] <==> c in domfr0[x] || (c == b && EndsAt(g, x, p, b)))
  {
    domfr := domfr0;
    var runner: nat := p;
    SDomOfPred(g, idom[b], p, b);
    assert Reachable(g, b);
    IdomInRange(g, idom[b], b);
    hide IsIdom;
    while runner != idom[b]
      invariant runner < |idom| && |domfr| == |domfr0|
      invariant Dom(g, idom[b], runner)
      invariant forall x: nat :: x < |idom| && Dom(g, x, runner) ==> Dom(g, x, p)
      invariant forall x: nat, c: nat :: x < |domfr| ==>
                  (c in domfr[x] <==> c in domfr0[x] || (c == b && Passed(g, p, runner, x)))
      decreases Dominators(g, runner)
    {
      assert runner != 0 by { OnlyEntryDominatesEntry(g, idom[b]); }
      DominatorsShrink(g, idom, runner);
      DomReflexive(g, runner);
      domfr := domfr[runner := domfr[runner] + {b}];
      runner := idom[runner];
    }
    WalkIsExact(g, idom, p, b);
  }

  lemma OnlyEntryDominatesEntry(g: Graph, d: nat)
    requires ValidGraph(g)
    ensures Dom(g, d, 0) ==> d == 0
  {
    assert PathBetween(g, [0], 0, 0);
  }

  /** The frontiers of all blocks. */
  method ComputeFrontiers(ghost g: Graph, preds: seq<seq<nat>>, idom: seq<nat>) returns (domfr: seq<set<nat>>)
    requires PredsOf(g, preds) && AllReachable(g) && EntryHasNoPred(g) && IdomsOf(g, idom)
    ensures |domfr| == |preds|
    ensures forall x: nat, b: nat :: x < |domfr| && b < |domfr| ==> (b in domfr[x] <==> InFrontier(g, x, b))
    ensures forall x: nat, b: nat :: x < |domfr| && b in domfr[x] ==> b < |domfr|
  {
    domfr := seq(|preds|, _ => {});
    var block := 0;
    while block < |preds|
      invariant block <= |preds| == |domfr|
      invariant forall x: nat, b: nat :: x < |domfr| ==> (b in domfr[x] <==> b < block && InFrontier(g, x, b))
    {
      if |preds[block]| > 1 {
        domfr := JoinFrontiers(g, preds, idom, block, domfr);
      } else {
        NoJoinNoFrontier(g, preds, block);
      }
      block := block + 1;
    }
  }

  method JoinFrontiers(ghost g: Graph, preds: seq<seq<nat>>, idom: seq<nat>, block: nat, domfr0: seq<set<nat>>) returns (domfr: seq<set<nat>>)
    requires PredsOf(g, preds) && AllReachable(g) && EntryHasNoPred(g) && IdomsOf(g, idom)
    requires block < |preds| == |domfr0| && |preds[block]| > 1
    ensures |domfr| == |domfr0|
    ensures forall x: nat, c: nat :: x < |domfr| ==> (c in domfr[x] <==> c in domfr0[x] || (c == block && InFrontier(g, x, block)))
  {
    assert preds[block][0] in preds[block];
    domfr := domfr0;
    var k := 0;
    while k < |preds[block]|
      invariant k <= |preds[block]| && |domfr| == |domfr0|
      invariant forall x: nat, c: nat :: x < |domfr| ==>
                  (c in domfr[x] <==> c in domfr0[x] || (c == block && exists p: nat :: p in preds[block][..k] && EndsAt(g, x, p, block)))
    {
      assert preds[block][k] in preds[block];
      assert preds[block][..k + 1] == preds[block][..k] + [preds[block][k]];
      domfr := WalkUp(g, idom, preds[block][k], block, domfr);
      k := k + 1;
    }
    assert preds[block][..k] == preds[block];
  }

  lemma NoJoinNoFrontier(g: Graph, preds: seq<seq<nat>>, b: nat)
    requires PredsOf(g, preds) && AllReachable(g) && EntryHasNoPred(g) && b < |preds| && |preds[b]| <= 1
    ensures forall x: nat :: !InFrontier(g, x, b)
  {
    forall x: nat, p: nat
      ensures !EndsAt(g, x, p, b)
    {
      if EndsAt(g, x, p, b) {
        assert p in preds[b];
        assert forall q: nat :: Edge(g, q, b) ==> q in preds[b];
        assert b != 0;
        SinglePredNoFrontier(g, p, b, x);
      }
    }
  }

  /** Dominators and frontiers from the predecessor lists, as the SSA pass asks for them. */
  method ComputeDomFrontier(ghost g: Graph, preds: seq<seq<nat>>) returns (idom: map<nat, nat>, domfr: seq<set<nat>>)
    requires PredsOf(g, preds) && AllReachable(g) && EntryHasNoPred(g)
    ensures forall b: nat :: b in idom <==> 0 < b < |preds|
    ensures forall b: nat :: b in idom ==> IsIdom(g, idom[b], b)
    ensures |domfr| == |preds|
    ensures forall x: nat, b: nat :: x < |domfr| && b < |domfr| ==> (b in domfr[x] <==> InFrontier(g, x, b))
  {
    var dominators := DominatorSolver.ComputeDominators(g, preds);
    domfr := ComputeFrontiers(g, preds, dominators);
    // the entry is the only block that stands for its own dominator
    forall b: nat | 0 < b < |dominators|
      ensures dominators[b] != b
    {
      assert IsIdom(g, dominators[b], b);
    }
    idom := map b: nat | b < |dominators| && dominators[b] != b :: dominators[b];
  }

  // ---- phi placement ----

  /** `s` holds the frontiers of all `stores` and, with a block, the frontier of that block. */
  ghost predicate FrontierClosed(domfr: seq<set<nat>>, stores: seq<nat>, s: set<nat>) {
    && (forall b: nat :: b in stores && b < |domfr| ==> domfr[b] <= s)
    && (forall b: nat :: b in s && b < |domfr| ==> domfr[b] <= s)
  }

  /** The least such set: the iterated frontier. */
  ghost predicate IsIteratedFrontier(domfr: seq<set<nat>>, stores: seq<nat>, s: set<nat>) {
    && FrontierClosed(domfr, stores, s)
    && forall s' :: FrontierClosed(domfr, stores, s') ==> s <= s'
  }

  ghost predicate ValidFrontiers(domfr: seq<set<nat>>) {
    forall x: nat, b: nat :: x < |domfr| && b in domfr[x] ==> b < |domfr|
  }

  ghost function Blocks(n: nat): (s: set<nat>)
    ensures forall b: nat :: b in s <==> b < n
  {
    if n == 0 then {} else Blocks(n - 1) + {n - 1}
  }

  lemma IteratedFrontierUnique(domfr: seq<set<nat>>, stores: seq<nat>, s: set<nat>, s': set<nat>)
    requires IsIteratedFrontier(domfr, stores, s) && IsIteratedFrontier(domfr, stores, s')
    ensures s == s'
  {
  }

  /** Blocks the worklist still has to look at. */
  ghost predicate Covered(domfr: seq<set<nat>>, stores: seq<nat>, visited: set<nat>, worklist: seq<nat>) {
    && (forall b: nat :: b in stores && b < |domfr| ==> b in worklist || domfr[b] <= visited)
    && (forall b: nat :: b in visited && b < |domfr| ==> b in worklist || domfr[b] <= visited)
  }

  /** One variable: a phi at the head of every block the worklist discovers. */
  method PlacePhis(domfr: seq<set<nat>>, stores: seq<nat>, v: nat, heads0: seq<seq<nat>>) returns (heads: seq<seq<nat>>, visited: set<nat>)
    requires ValidFrontiers(domfr) && |heads0| == |domfr| && (forall b: nat :: b in stores ==> b < |domfr|)
    ensures IsIteratedFrontier(domfr, stores, visited) && visited <= Blocks(|domfr|)
    ensures |heads| == |heads0|
    ensures forall b: nat :: b < |heads| ==> heads[b] == if b in visited then [v] + heads0[b] else heads0[b]
  {
    heads, visited := heads0, {};
    ghost var all := Blocks(|domfr|);
    var worklist: seq<nat> := stores;
    while worklist != []
      invariant |heads| == |heads0| && visited <= all
      invariant forall b: nat :: b in worklist ==> b < |domfr|
      invariant forall b: nat :: b in worklist ==> b in stores || b in visited
      invariant Covered(domfr, stores, visited, worklist)
      invariant forall s :: FrontierClosed(domfr, stores, s) ==> visited <= s
      invariant forall b: nat :: b < |heads| ==> heads[b] == if b in visited then [v] + heads0[b] else heads0[b]
      decreases all - visited, |worklist|
    {
      var df := worklist[|worklist| - 1];
      var rest := worklist[..|worklist| - 1];
      assert df in worklist && rest + [df] == worklist;
      assert forall b: nat :: b in worklist ==> b < |domfr|;
      assert forall b: nat :: b in rest ==> b in worklist;
      assert forall b: nat :: b in rest ==> b < |domfr|;
      heads, visited, worklist := PlaceOnFrontier(domfr, stores, v, df, heads0, heads, visited, rest);
    }
  }

  /** The frontier of one block popped from the worklist. */
  method PlaceOnFrontier(domfr: seq<set<nat>>, ghost stores: seq<nat>, v: nat, df: nat, ghost heads0: seq<seq<nat>>,
                         heads1: seq<seq<nat>>, visited1: set<nat>, worklist1: seq<nat>)
    returns (heads: seq<seq<nat>>, visited: set<nat>, worklist: seq<nat>)
    requires ValidFrontiers(domfr) && |heads1| == |heads0| == |domfr| && df < |domfr|
    requires forall b: nat :: b in worklist1 ==> b < |domfr|
    requires df in stores || df in visited1
    requires forall b: nat :: b in worklist1 ==> b in stores || b in visited1
    requires Covered(domfr, stores, visited1, worklist1 + [df])
    requires forall s :: FrontierClosed(domfr, stores, s) ==> visited1 <= s
    requires forall b: nat :: b < |heads1| ==> heads1[b] == if b in visited1 then [v] + heads0[b] else heads0[b]
    ensures |heads| == |heads0| && visited1 <= visited <= visited1 + Blocks(|domfr|)
    ensures visited == visited1 ==> worklist == worklist1
    ensures forall b: nat :: b in worklist ==> b < |domfr|
    ensures forall b: nat :: b in worklist ==> b in stores || b in visited
    ensures Covered(domfr, stores, visited, worklist)
    ensures forall s :: FrontierClosed(domfr, stores, s) ==> visited <= s
    ensures forall b: nat :: b < |heads| ==> heads[b] == if b in visited then [v] + heads0[b] else heads0[b]
  {
    heads, visited, worklist := heads1, visited1, worklist1;
    var rest := domfr[df];
    while rest != {}
      invariant rest <= domfr[df] && domfr[df] - rest <= visited
      invariant |heads| == |heads0| && visited1 <= visited <= visited1 + Blocks(|domfr|)
      invariant visited == visited1 ==> worklist == worklist1
      invariant forall b: nat :: b in worklist ==> b < |domfr|
      invariant forall b: nat :: b in worklist ==> b in stores || b in visited
      invariant Covered(domfr, stores, visited, worklist + [df])
      invariant forall s :: FrontierClosed(domfr, stores, s) ==> visited <= s
      invariant forall b: nat :: b < |heads| ==> heads[b] == if b in visited then [v] + heads0[b] else heads0[b]
      decreases rest
    {
      var frontier: nat :| frontier in rest;
      rest := rest - {frontier};
      if frontier !in visited {
        heads := heads[frontier := [v] + heads[frontier]];
        visited := visited + {frontier};
        worklist := worklist + [frontier];
      }
    }
  }

  /** `b` belongs to every set closed under the frontiers of the store blocks: the least one. */
  ghost predicate InIteratedFrontier(domfr: seq<set<nat>>, stores: seq<nat>, b: nat) {
    forall s :: FrontierClosed(domfr, stores, s) ==> b in s
  }

  lemma LeastIsIntersection(domfr: seq<set<nat>>, stores: seq<nat>, s: set<nat>)
    requires IsIteratedFrontier(domfr, stores, s)
    ensures forall b: nat :: b in s <==> InIteratedFrontier(domfr, stores, b)
  {
  }

  /** Every variable in turn; block heads list the variables of their phis, the last placed first. */
  method PlaceAllPhis(domfr: seq<set<nat>>, stores: seq<seq<nat>>) returns (heads: seq<seq<nat>>)
    requires ValidFrontiers(domfr) && forall v: nat, b: nat :: v < |stores| && b in stores[v] ==> b < |domfr|
    ensures |heads| == |domfr|
    ensures forall v: nat, b: nat :: v < |stores| && b < |heads| ==>
              multiset(heads[b])[v] == if InIteratedFrontier(domfr, stores[v], b) then 1 else 0
    ensures forall v: nat, b: nat :: b < |heads| && v in heads[b] ==> v < |stores|
  {
    heads := seq(|domfr|, _ => []);
    var v := 0;
    while v < |stores|
      invariant v <= |stores| && |heads| == |domfr|
      invariant forall u: nat, b: nat :: u < v && b < |heads| ==>
                  multiset(heads[b])[u] == if InIteratedFrontier(domfr, stores[u], b) then 1 else 0
      invariant forall u: nat, b: nat :: b < |heads| && u in heads[b] ==> u < v
    {
      ghost var heads0 := heads;
      var visited;
      heads, visited := PlacePhis(domfr, stores[v], v, heads);
      LeastIsIntersection(domfr, stores[v], visited);
      forall u: nat, b: nat | u <= v && b < |heads|
        ensures multiset(heads[b])[u] == if InIteratedFrontier(domfr, stores[u], b) then 1 else 0
      {
        assert u == v ==> u !in heads0[b];
        assert multiset([v] + heads0[b]) == multiset([v]) + multiset(heads0[b]);
      }
      v := v + 1;
    }
  }
}
