/**
 Phis are not placed without need: at least two definitions arrive at each of them, so
 none is ever replaced by a single incoming value.
 */
module PhiArguments {
  import opened Digraph
  import opened DominanceFrontier
  import M = MemoryToRegister
  import opened Options
  import opened ReachingDefinitions
  import opened SiteOrder

  /** On a path to a block that `x` dominates, the last definition is in a block that `x` dominates, when `x` defines the variable. */
  lemma DefinitionDominated(g: Graph, blocks: seq<seq<Instr>>, v: nat, x: nat, p: seq<nat>, s: Site)
    requires ValidCode(g, blocks) && IsPath(g, p) && p[0] == 0 && DefinedIn(blocks, v, x) && Dom(g, x, p[|p| - 1])
    requires Reaching(blocks, v, p) == Some(s)
    ensures Dom(g, x, s.block)
  {
    hide Dom;
    ReachingAt(blocks, v, p, s);
    var k: nat := LastFull(p, s.block);
    DominatorOnPath(g, p, x);
    assert LastFull(p, x) <= k;
    DominatedBefore(g, p, x, k);
  }

  /** After the last visit of `x`, on the way to a block that it dominates, there are only blocks that it dominates. */
  lemma DominatedBefore(g: Graph, p: seq<nat>, x: nat, k: nat)
    requires IsPath(g, p) && Dom(g, x, p[|p| - 1]) && LastFull(p, x) <= k < |p|
    ensures Dom(g, x, p[k])
  {
    Subpath(g, p, k, |p|);
    LateVisit(p, x, k);
    forall q | PathBetween(g, q, 0, p[k])
      ensures x in q
    {
      JoinPaths(g, q, p[k..|p|]);
      assert p[k..|p|] == p[k..];
      DominatorOnPath(g, q + p[k..][1..], x);
    }
  }

  lemma LateVisit(p: seq<nat>, x: nat, k: nat)
    requires LastFull(p, x) <= k < |p|
    ensures x !in p[k..][1..]
  {
    forall j | 0 <= j < |p[k..][1..]|
      ensures p[k..][1..][j] != x
    {
      assert p[k..][1..][j] == p[k + 1 + j];
    }
  }

  /** A path to `b` on which `x` does not come before the end. */
  lemma Avoiding(g: Graph, x: nat, b: nat) returns (q: seq<nat>)
    requires Reachable(g, b) && !SDom(g, x, b)
    ensures PathBetween(g, q, 0, b) && x !in q[..|q| - 1]
  {
    if x == b {
      var p :| PathBetween(g, p, 0, b);
      q := FirstVisit(g, p, b);
    } else {
      q :| PathBetween(g, q, 0, b) && x !in q;
    }
  }

  ghost predicate Two(s: set<Site>) {
    exists x, y :: x in s && y in s && x != y
  }

  /** Where a phi is needed, two definitions arrive. */
  lemma TwoArrive(g: Graph, blocks: seq<seq<Instr>>, v: nat, b: nat, from: set<Site>)
    requires ValidCode(g, blocks) && AllReachable(g) && EntryHasNoPred(g) && DefinedIn(blocks, v, 0) && b < |blocks|
    requires M.NeededAt(g, blocks, v, b) && forall s: Site :: EntersBlock(g, blocks, v, s, b) ==> s in from
    ensures Two(from)
  {
    var x: nat :| DefinedIn(blocks, v, x) && InFrontier(g, x, b);
    var p: nat :| EndsAt(g, x, p, b);
    assert Reachable(g, p);
    var r :| PathBetween(g, r, 0, p);
    var q := Avoiding(g, x, b);
    hide SDom, Dom, DefinedIn;
    SomethingReaches(g, blocks, v, r);
    var s := Reaching(blocks, v, r).value;
    ArrivesBy(g, blocks, v, r, s, b);
    DefinitionDominated(g, blocks, v, x, r, s);
    var q0 := q[..|q| - 1];
    LastStep(g, q, p);
    SomethingReaches(g, blocks, v, q0);
    var e := Reaching(blocks, v, q0).value;
    ArrivesBy(g, blocks, v, q0, e, b);
    NotDominated(g, blocks, v, x, q0, e);
    assert s in from && e in from && s != e;
  }

  lemma ArrivesBy(g: Graph, blocks: seq<seq<Instr>>, v: nat, p: seq<nat>, s: Site, b: nat)
    requires ValidCode(g, blocks) && IsPath(g, p) && p[0] == 0 && Edge(g, p[|p| - 1], b) && b < |blocks| && Reaching(blocks, v, p) == Some(s)
    ensures EntersBlock(g, blocks, v, s, b)
  {
    ExtendPath(g, p, b);
    assert (p + [b])[..|p + [b]| - 1] == p;
  }

  lemma LastStep(g: Graph, q: seq<nat>, p: nat)
    requires EntryHasNoPred(g) && IsPath(g, q) && q[0] == 0 && Edge(g, p, q[|q| - 1])
    ensures |q| > 1 && IsPath(g, q[..|q| - 1]) && q[..|q| - 1][0] == 0 && Edge(g, q[..|q| - 1][|q| - 2], q[|q| - 1])
  {
    Subpath(g, q, 0, |q| - 1);
    assert q[0..|q| - 1] == q[..|q| - 1];
  }

  lemma NotDominated(g: Graph, blocks: seq<seq<Instr>>, v: nat, x: nat, p: seq<nat>, s: Site)
    requires ValidCode(g, blocks) && IsPath(g, p) && p[0] == 0 && x !in p && Reaching(blocks, v, p) == Some(s)
    ensures !Dom(g, x, s.block)
  {
    ReachingAt(blocks, v, p, s);
    var k: nat := LastFull(p, s.block);
    Subpath(g, p, 0, k + 1);
    assert x !in p[0..k + 1];
  }

  /** No phi has fewer than two arguments. */
  ghost predicate NoSingles(phis: seq<map<nat, set<Site>>>) {
    forall b, k :: 0 <= b < |phis| && k in phis[b] ==> Two(phis[b][k])
  }

  lemma NoneSingle(g: Graph, blocks: seq<seq<Instr>>, n: nat, phis: seq<map<nat, set<Site>>>)
    requires ValidCode(g, blocks) && AllReachable(g) && EntryHasNoPred(g) && AllPhisPlaced(g, blocks, n) && M.PhisNeeded(g, blocks)
    requires |phis| == |blocks| && forall b: nat :: b < |blocks| ==> M.PhisFilled(g, blocks, b, phis[b])
    requires forall b: nat, k: nat :: b < |blocks| && k < |blocks[b]| && blocks[b][k].Phi? ==> blocks[b][k].v < n
    ensures NoSingles(phis)
  {
    forall b: nat, k: nat | b < |phis| && k in phis[b]
      ensures Two(phis[b][k])
    {
      assert M.PhisFilled(g, blocks, b, phis[b]);
      var v := blocks[b][k].v;
      assert PhisPlaced(g, blocks, v);
      TwoArrive(g, blocks, v, b, phis[b][k]);
    }
  }
}
