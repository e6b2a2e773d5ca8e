/**
 Control flow graphs as the SSA passes see them: blocks are numbered by their
 position in the function (the entry is block 0) and every block lists its
 successors in branch order. Paths, reachability and dominance are defined here
 once and for all; the passes are proved against these definitions.
 */
module Digraph {

  datatype Graph = Graph(succs: seq<seq<nat>>)

  ghost predicate ValidGraph(g: Graph) {
    && |g.succs| > 0
    && forall u, w :: 0 <= u < |g.succs| && w in g.succs[u] ==> w < |g.succs|
  }

  predicate Edge(g: Graph, u: nat, v: nat) {
    u < |g.succs| && v in g.succs[u]
  }

  ghost predicate IsPath(g: Graph, p: seq<nat>) {
    && |p| > 0
    && (forall i :: 0 <= i < |p| ==> p[i] < |g.succs|)
    && forall i :: 0 <= i < |p| - 1 ==> Edge(g, p[i], p[i + 1])
  }

  ghost predicate PathBetween(g: Graph, p: seq<nat>, u: nat, v: nat) {
    IsPath(g, p) && p[0] == u && p[|p| - 1] == v
  }

  ghost predicate Reachable(g: Graph, v: nat) {
    exists p :: PathBetween(g, p, 0, v)
  }

  ghost predicate AllReachable(g: Graph) {
    forall v: nat :: v < |g.succs| ==> Reachable(g, v)
  }

  /** The entry block has no predecessor. */
  ghost predicate EntryHasNoPred(g: Graph) {
    forall u: nat :: !Edge(g, u, 0)
  }

  /** `a` dominates `b`: every path from the entry to `b` goes through `a`. */
  ghost predicate Dom(g: Graph, a: nat, b: nat) {
    forall p :: PathBetween(g, p, 0, b) ==> a in p
  }

  ghost predicate SDom(g: Graph, a: nat, b: nat) {
    Dom(g, a, b) && a != b
  }

  /** `d` is the immediate dominator of `b`. */
  ghost predicate IsIdom(g: Graph, d: nat, b: nat) {
    && SDom(g, d, b)
    && forall x: nat :: SDom(g, x, b) ==> Dom(g, x, d)
  }

  // ---- joining and cutting paths ----

  lemma JoinPaths(g: Graph, p: seq<nat>, q: seq<nat>)
    requires IsPath(g, p) && IsPath(g, q) && p[|p| - 1] == q[0]
    ensures PathBetween(g, p + q[1..], p[0], q[|q| - 1])
  {
    var r := p + q[1..];
    forall i | 0 <= i < |r| - 1
      ensures Edge(g, r[i], r[i + 1])
    {
      if i >= |p| - 1 {
        assert r[i] == q[i - |p| + 1] && r[i + 1] == q[i - |p| + 2];
      }
    }
  }

  lemma ExtendPath(g: Graph, p: seq<nat>, v: nat)
    requires IsPath(g, p) && v < |g.succs| && Edge(g, p[|p| - 1], v)
    ensures PathBetween(g, p + [v], p[0], v)
  {
  }

  lemma Subpath(g: Graph, p: seq<nat>, i: nat, j: nat)
    requires IsPath(g, p) && i < j <= |p|
    ensures PathBetween(g, p[i..j], p[i], p[j - 1])
  {
  }

  lemma NotInTail(p: seq<nat>, x: nat)
    requires |p| > 0 && forall i :: 0 < i < |p| ==> p[i] != x
    ensures x !in p[1..]
  {
    assert forall i {:trigger p[1..][i]} :: 0 <= i < |p[1..]| ==> p[1..][i] == p[i + 1];
  }

  // ---- dominance is a partial order whose down-sets are chains ----

  lemma DomReflexive(g: Graph, v: nat)
    ensures Dom(g, v, v)
  {
  }

  lemma EntryDominates(g: Graph, v: nat)
    ensures Dom(g, 0, v)
  {
  }

  lemma DomTransitive(g: Graph, a: nat, b: nat, c: nat)
    requires Dom(g, a, b) && Dom(g, b, c)
    ensures Dom(g, a, c)
  {
    forall p | PathBetween(g, p, 0, c)
      ensures a in p
    {
      var i :| 0 <= i < |p| && p[i] == b;
      Subpath(g, p, 0, i + 1);
      assert PathBetween(g, p[0..i + 1], 0, b);
      assert a in p[0..i + 1];
    }
  }

  /** A path to `v` can be cut at the first visit of `v`. */
  lemma FirstVisit(g: Graph, p: seq<nat>, v: nat) returns (q: seq<nat>)
    requires IsPath(g, p) && v in p
    ensures PathBetween(g, q, p[0], v) && q <= p && v !in q[..|q| - 1]
  {
    var i := 0;
    while p[i] != v
      invariant 0 <= i < |p| && v !in p[..i]
      invariant exists k :: i <= k < |p| && p[k] == v
      decreases |p| - i
    {
      var k :| i <= k < |p| && p[k] == v;
      assert p[..i + 1] == p[..i] + [p[i]];
      i := i + 1;
    }
    q := p[0..i + 1];
    Subpath(g, p, 0, i + 1);
    assert q[..|q| - 1] == p[..i];
  }

  lemma DomAntisymmetric(g: Graph, a: nat, b: nat)
    requires Reachable(g, a) && Dom(g, a, b) && Dom(g, b, a)
    ensures a == b
  {
    var p :| PathBetween(g, p, 0, a);
    var q := FirstVisit(g, p, a);
    assert b in q;
    var q' := FirstVisit(g, q, b);
    assert a in q';
  }

  /** Two dominators of the same reachable block are comparable. */
  lemma DominatorsComparable(g: Graph, a: nat, b: nat, v: nat)
    requires Reachable(g, v) && Dom(g, a, v) && Dom(g, b, v)
    ensures Dom(g, a, b) || Dom(g, b, a)
  {
    if !Dom(g, a, b) && !Dom(g, b, a) {
      var p :| PathBetween(g, p, 0, b) && a !in p;
      var q :| PathBetween(g, q, 0, a) && b !in q;
      var r :| PathBetween(g, r, 0, v);
      var i := LastVisit(r, a, b);
      if r[i] == a {
        Reroute(g, q, r, i);
      } else {
        Reroute(g, p, r, i);
      }
      assert false;
    }
  }

  /** The last position on `r` holding `a` or `b`. */
  lemma LastVisit(r: seq<nat>, a: nat, b: nat) returns (i: nat)
    requires a in r
    ensures i < |r| && (r[i] == a || r[i] == b) && a !in r[i + 1..] && b !in r[i + 1..]
  {
    i := |r| - 1;
    while r[i] != a && r[i] != b
      invariant 0 <= i < |r| && a !in r[i + 1..] && b !in r[i + 1..]
      invariant exists k :: 0 <= k <= i && r[k] == a
      decreases i
    {
      assert r[i..] == [r[i]] + r[i + 1..];
      i := i - 1;
    }
  }

  /** Replace the beginning of a path by another path to the same block. */
  lemma Reroute(g: Graph, p: seq<nat>, r: seq<nat>, i: nat)
    requires IsPath(g, p) && IsPath(g, r) && i < |r| && p[|p| - 1] == r[i]
    ensures PathBetween(g, p + r[i + 1..], p[0], r[|r| - 1])
  {
    Subpath(g, r, i, |r|);
    JoinPaths(g, p, r[i..]);
    assert r[i..][1..] == r[i + 1..];
  }

  lemma IdomUnique(g: Graph, d: nat, d': nat, b: nat)
    requires IsIdom(g, d, b) && IsIdom(g, d', b) && Reachable(g, d)
    ensures d == d'
  {
    assert Dom(g, d, d') && Dom(g, d', d);
    DomAntisymmetric(g, d, d');
  }

  /** The strict dominators of `b` are exactly the dominators of its immediate dominator. */
  lemma SDomIffDomIdom(g: Graph, x: nat, d: nat, b: nat)
    requires IsIdom(g, d, b) && Reachable(g, b)
    ensures SDom(g, x, b) <==> Dom(g, x, d)
  {
    if Dom(g, x, d) {
      DomTransitive(g, x, d, b);
      if x == b {
        DomAntisymmetric(g, b, d);
      }
    }
  }

  /** A strict dominator of `b` dominates every predecessor of `b`. */
  lemma SDomOfPred(g: Graph, d: nat, p: nat, b: nat)
    requires ValidGraph(g) && SDom(g, d, b) && Edge(g, p, b) && b < |g.succs|
    ensures Dom(g, d, p)
  {
    forall q | PathBetween(g, q, 0, p)
      ensures d in q
    {
      ExtendPath(g, q, b);
      assert PathBetween(g, q + [b], 0, b);
      assert d in q + [b];
    }
  }

  /** Blocks on a path are below the dominators that the path has left behind for good. */
  lemma DomAlongPath(g: Graph, d: nat, q: seq<nat>, b: nat)
    requires Dom(g, d, b) && IsPath(g, q) && q[|q| - 1] == b && d !in q[1..]
    ensures forall i :: 0 <= i < |q| ==> Dom(g, d, q[i])
  {
    forall i | 0 <= i < |q|
      ensures Dom(g, d, q[i])
    {
      forall p | PathBetween(g, p, 0, q[i])
        ensures d in p
      {
        Reroute(g, p, q, i);
        assert d !in q[i + 1..] by {
          assert q[i + 1..] == q[1..][i..];
        }
      }
    }
  }
}
