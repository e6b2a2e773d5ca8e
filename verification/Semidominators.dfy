/**
 The theory behind the Lengauer-Tarjan algorithm: depth-first spanning trees
 described by visit intervals, semidominators, and the theorems that turn
 semidominators into immediate dominators.
 */
module Semidominators {
  import opened Digraph

  /**
   A depth-first spanning tree: `dfn[v]` is the visit number of `v`,
   `father[v]` its tree parent, and `last[v]` the number of visits made when the
   visit of `v` ends, so `[dfn[v], last[v])` numbers exactly the subtree of `v`.
   */
  datatype Tree = Tree(dfn: seq<nat>, father: seq<nat>, last: seq<nat>)

  ghost predicate Sized(g: Graph, t: Tree) {
    |t.dfn| == |t.father| == |t.last| == |g.succs|
  }

  ghost predicate IsDfsTree(g: Graph, t: Tree) {
    && ValidGraph(g)
    && Sized(g, t)
    && t.dfn[0] == 0
    && (forall u: nat, v: nat :: u < |t.dfn| && v < |t.dfn| && t.dfn[u] == t.dfn[v] ==> u == v)
    && (forall v: nat {:trigger t.last[v]} :: v < |t.dfn| ==> t.dfn[v] < t.last[v])
    && (forall v: nat {:trigger t.father[v]} :: 0 < v < |t.dfn| ==>
        && t.father[v] < |t.dfn|
        && Edge(g, t.father[v], v)
        && t.dfn[t.father[v]] < t.dfn[v]
        && t.last[v] <= t.last[t.father[v]])
    && (forall u: nat, v: nat {:trigger Edge(g, u, v)} :: u < |t.dfn| && Edge(g, u, v) ==> t.dfn[v] < t.last[u])
    && (forall u: nat, v: nat {:trigger t.last[u], t.father[v]} :: u < |t.dfn| && v < |t.dfn| && t.dfn[u] < t.dfn[v] < t.last[u] ==>
        t.father[v] < |t.dfn| && t.dfn[u] <= t.dfn[t.father[v]])
  }

  /** `u` is an ancestor of `v` in the tree, or `v` itself. */
  ghost predicate Anc(t: Tree, u: nat, v: nat) {
    && u < |t.dfn| == |t.last|
    && v < |t.dfn|
    && t.dfn[u] <= t.dfn[v] < t.last[u]
  }

  /** `y` lies on the tree path from `a` (excluded) down to `v` (included). */
  ghost predicate Between(t: Tree, a: nat, y: nat, v: nat) {
    Anc(t, a, y) && y != a && Anc(t, y, v)
  }

  lemma AncNested(g: Graph, t: Tree, u: nat, v: nat)
    requires IsDfsTree(g, t) && Anc(t, u, v)
    ensures t.last[v] <= t.last[u]
    decreases t.dfn[v]
  {
    if u != v {
      AncNested(g, t, u, t.father[v]);
    }
  }

  lemma AncTransitive(g: Graph, t: Tree, u: nat, v: nat, w: nat)
    requires IsDfsTree(g, t) && Anc(t, u, v) && Anc(t, v, w)
    ensures Anc(t, u, w)
  {
    AncNested(g, t, u, v);
  }

  /** Two ancestors of one block are comparable. */
  lemma AncComparable(g: Graph, t: Tree, u: nat, v: nat, w: nat)
    requires IsDfsTree(g, t) && Anc(t, u, w) && Anc(t, v, w) && t.dfn[u] <= t.dfn[v]
    ensures Anc(t, u, v)
  {
  }

  lemma AncAntisymmetric(g: Graph, t: Tree, u: nat, v: nat)
    requires IsDfsTree(g, t) && Anc(t, u, v) && Anc(t, v, u)
    ensures u == v
  {
  }

  lemma RootIsAncestor(g: Graph, t: Tree, v: nat)
    requires IsDfsTree(g, t) && v < |g.succs|
    ensures Anc(t, 0, v)
    decreases t.dfn[v]
  {
    if v != 0 {
      RootIsAncestor(g, t, t.father[v]);
      AncNested(g, t, 0, t.father[v]);
    }
  }

  /** The tree path from `u` down to its descendant `v`. */
  ghost function TreePath(g: Graph, t: Tree, u: nat, v: nat): (p: seq<nat>)
    requires IsDfsTree(g, t) && Anc(t, u, v)
    ensures PathBetween(g, p, u, v)
    ensures forall i :: 0 <= i < |p| ==> Anc(t, u, p[i]) && Anc(t, p[i], v)
    ensures u == v ==> p == [v]
    decreases t.dfn[v]
  {
    if u == v then [v]
    else
      var q := TreePath(g, t, u, t.father[v]);
      assert Anc(t, t.father[v], v);
      assert forall i :: 0 <= i < |q| ==> Anc(t, q[i], v) by {
        forall i | 0 <= i < |q|
          ensures Anc(t, q[i], v)
        {
          AncTransitive(g, t, q[i], t.father[v], v);
        }
      }
      q + [v]
  }

  /** Below `u` the tree path repeats no block. */
  lemma TreePathBelow(g: Graph, t: Tree, u: nat, v: nat)
    requires IsDfsTree(g, t) && Anc(t, u, v)
    ensures forall i :: 0 < i < |TreePath(g, t, u, v)| ==> Between(t, u, TreePath(g, t, u, v)[i], v)
    decreases t.dfn[v]
  {
    if u != v {
      TreePathBelow(g, t, u, t.father[v]);
      var q := TreePath(g, t, u, t.father[v]);
      assert TreePath(g, t, u, v) == q + [v];
    }
  }

  lemma DomIsAncestor(g: Graph, t: Tree, x: nat, w: nat)
    requires IsDfsTree(g, t) && w < |g.succs| && Dom(g, x, w)
    ensures Anc(t, x, w)
  {
    RootIsAncestor(g, t, w);
    assert x in TreePath(g, t, 0, w);
  }

  /** The first-visited block of a path is an ancestor of everything after it. */
  lemma PathMinimum(g: Graph, t: Tree, p: seq<nat>) returns (m: nat)
    requires IsDfsTree(g, t) && IsPath(g, p)
    ensures m < |p|
    ensures forall j :: 0 <= j < |p| ==> t.dfn[p[m]] <= t.dfn[p[j]]
    ensures forall j :: m <= j < |p| ==> Anc(t, p[m], p[j])
  {
    m := 0;
    var k := 1;
    while k < |p|
      invariant m < k <= |p|
      invariant forall j :: 0 <= j < k ==> t.dfn[p[m]] <= t.dfn[p[j]]
      invariant forall j :: m <= j < k ==> Anc(t, p[m], p[j])
    {
      assert Edge(g, p[k - 1], p[k]);
      if t.dfn[p[k]] < t.dfn[p[m]] {
        m := k;
      } else {
        AncNested(g, t, p[m], p[k - 1]);
      }
      k := k + 1;
    }
  }

  // ---- semidominators ----

  /** A path whose interior blocks are all visited after its last block. */
  ghost predicate SemiPath(g: Graph, t: Tree, p: seq<nat>) {
    && IsPath(g, p)
    && Sized(g, t)
    && |p| >= 2
    && forall i :: 0 < i < |p| - 1 ==> t.dfn[p[i]] > t.dfn[p[|p| - 1]]
  }

  ghost predicate SemiPathTo(g: Graph, t: Tree, p: seq<nat>, w: nat) {
    SemiPath(g, t, p) && p[|p| - 1] == w
  }

  ghost predicate SemiPathBetween(g: Graph, t: Tree, p: seq<nat>, s: nat, w: nat) {
    SemiPathTo(g, t, p, w) && p[0] == s
  }

  /** `s` is the first-visited block from which a semi-path leads to `w`. */
  ghost predicate IsSemi(g: Graph, t: Tree, s: nat, w: nat) {
    && (exists p :: SemiPathBetween(g, t, p, s, w))
    && s < |t.dfn|
    && forall p :: SemiPathTo(g, t, p, w) ==> t.dfn[s] <= t.dfn[p[0]]
  }

  lemma SemiBelowFather(g: Graph, t: Tree, s: nat, w: nat)
    requires IsDfsTree(g, t) && 0 < w < |g.succs| && IsSemi(g, t, s, w)
    ensures t.dfn[s] <= t.dfn[t.father[w]]
  {
    assert SemiPathTo(g, t, [t.father[w], w], w);
  }

  lemma SemiIsAncestor(g: Graph, t: Tree, s: nat, w: nat)
    requires IsDfsTree(g, t) && 0 < w < |g.succs| && IsSemi(g, t, s, w)
    ensures Anc(t, s, w) && s != w
  {
    SemiBelowFather(g, t, s, w);
    var p :| SemiPathBetween(g, t, p, s, w);
    var m := PathMinimum(g, t, p);
  }

  /** No strict dominator of `w` lies strictly between its semidominator and `w`. */
  lemma DominatorAboveSemi(g: Graph, t: Tree, s: nat, w: nat, x: nat)
    requires IsDfsTree(g, t) && 0 < w < |g.succs| && IsSemi(g, t, s, w) && SDom(g, x, w)
    ensures Anc(t, x, s)
  {
    DomIsAncestor(g, t, x, w);
    SemiIsAncestor(g, t, s, w);
    RootIsAncestor(g, t, s);
    var p :| SemiPathBetween(g, t, p, s, w);
    var q := TreePath(g, t, 0, s);
    JoinPaths(g, q, p);
    NotInTail(p, x);
    assert x in q + p[1..];
  }

  lemma DomOfTreeAncestor(g: Graph, t: Tree, x: nat, s: nat, w: nat)
    requires IsDfsTree(g, t) && Dom(g, x, w) && Anc(t, x, s) && Anc(t, s, w)
    ensures Dom(g, x, s)
  {
    forall q | PathBetween(g, q, 0, s)
      ensures x in q
    {
      var p := TreePath(g, t, s, w);
      JoinPaths(g, q, p);
      TreePathBelow(g, t, s, w);
      NotInTail(p, x);
      assert x in q + p[1..];
    }
  }

  /**
   A path from the entry to `w` that misses the tree ancestor `z` of `w` enters the
   tree path from `z` to `w` through a semi-path that starts before `z`.
   */
  lemma EntersBelow(g: Graph, t: Tree, z: nat, w: nat, p: seq<nat>) returns (q: seq<nat>)
    requires IsDfsTree(g, t) && Anc(t, z, w) && PathBetween(g, p, 0, w) && z !in p
    ensures SemiPath(g, t, q) && t.dfn[q[0]] < t.dfn[z] && Between(t, z, q[|q| - 1], w)
  {
    assert Sized(g, t);
    hide IsDfsTree;
    var i := LastBefore(g, t, z, w, p);
    var j := FirstOnTreePath(g, t, z, w, p, i);
    q := p[i..j + 1];
    Subpath(g, p, i, j + 1);
    forall k | i < k < j
      ensures t.dfn[p[k]] > t.dfn[p[j]]
    {
      InteriorIsLater(g, t, z, w, p, i, j, k);
    }
  }

  lemma InteriorIsLater(g: Graph, t: Tree, z: nat, w: nat, p: seq<nat>, i: nat, j: nat, k: nat)
    requires IsDfsTree(g, t) && IsPath(g, p) && i < k < j < |p| && Between(t, z, p[j], w)
    requires forall k :: i < k < |p| ==> t.dfn[p[k]] >= t.dfn[z]
    requires forall k :: i < k < j ==> !(Anc(t, z, p[k]) && Anc(t, p[k], w))
    ensures t.dfn[p[k]] > t.dfn[p[j]]
  {
    Subpath(g, p, k, j + 1);
    var m := PathMinimum(g, t, p[k..j + 1]);
    assert p[k..j + 1][j - k] == p[j] && p[k..j + 1][0] == p[k] && p[k..j + 1][m] == p[k + m];
    AncTransitive(g, t, p[k + m], p[j], w);
    assert Anc(t, z, p[k + m]);
  }

  lemma LastBefore(g: Graph, t: Tree, z: nat, w: nat, p: seq<nat>) returns (i: nat)
    requires IsDfsTree(g, t) && Anc(t, z, w) && PathBetween(g, p, 0, w) && z !in p
    ensures i < |p| - 1 && t.dfn[p[i]] < t.dfn[z]
    ensures forall k :: i < k < |p| ==> t.dfn[p[k]] >= t.dfn[z]
  {
    assert z != 0 by { assert p[0] == 0; }
    assert t.dfn[z] != t.dfn[0];
    i := |p| - 1;
    while t.dfn[p[i]] >= t.dfn[z]
      invariant i < |p|
      invariant forall k :: i < k < |p| ==> t.dfn[p[k]] >= t.dfn[z]
      decreases i
    {
      assert p[i] != 0;
      i := i - 1;
    }
  }

  lemma FirstOnTreePath(g: Graph, t: Tree, z: nat, w: nat, p: seq<nat>, i: nat) returns (j: nat)
    requires IsDfsTree(g, t) && Anc(t, z, w) && PathBetween(g, p, 0, w) && z !in p && i < |p| - 1
    ensures i < j < |p| && Between(t, z, p[j], w)
    ensures forall k :: i < k < j ==> !(Anc(t, z, p[k]) && Anc(t, p[k], w))
  {
    j := i + 1;
    while !(Anc(t, z, p[j]) && Anc(t, p[j], w))
      invariant i < j < |p|
      invariant forall k :: i < k < j ==> !(Anc(t, z, p[k]) && Anc(t, p[k], w))
      decreases |p| - j
    {
      j := j + 1;
    }
  }

  /** All semidominators, one per block (the entry's slot is irrelevant). */
  ghost predicate AllSemis(g: Graph, t: Tree, semi: seq<nat>) {
    && |semi| == |g.succs|
    && forall v: nat :: 0 < v < |g.succs| ==> IsSemi(g, t, semi[v], v)
  }

  /** When no block between `semi[w]` and `w` has an earlier semidominator, `semi[w]` is the immediate dominator. */
  lemma SemiIsIdom(g: Graph, t: Tree, semi: seq<nat>, w: nat)
    requires IsDfsTree(g, t) && AllSemis(g, t, semi) && 0 < w < |g.succs|
    requires forall y: nat :: semi[w] < |t.dfn| && Between(t, semi[w], y, w) ==>
               semi[y] < |t.dfn| && t.dfn[semi[w]] <= t.dfn[semi[y]]
    ensures IsIdom(g, semi[w], w)
  {
    var s := semi[w];
    SemiIsAncestor(g, t, s, w);
    forall p | PathBetween(g, p, 0, w)
      ensures s in p
    {
      if s !in p {
        var q := EntersBelow(g, t, s, w, p);
        assert SemiPathTo(g, t, q, q[|q| - 1]);
        assert false;
      }
    }
    forall x: nat | SDom(g, x, w)
      ensures Dom(g, x, s)
    {
      DominatorAboveSemi(g, t, s, w, x);
      DomOfTreeAncestor(g, t, x, s, w);
    }
  }

  /** Otherwise the block with the first semidominator on that stretch has the same immediate dominator. */
  lemma IdomOfMinimum(g: Graph, t: Tree, semi: seq<nat>, w: nat, u: nat, d: nat)
    requires IsDfsTree(g, t) && AllSemis(g, t, semi) && 0 < w < |g.succs|
    requires semi[w] < |t.dfn| && Between(t, semi[w], u, w) && 0 < u
    requires forall y: nat :: Between(t, semi[w], y, w) ==>
               semi[u] < |t.dfn| && semi[y] < |t.dfn| && t.dfn[semi[u]] <= t.dfn[semi[y]]
    requires IsIdom(g, d, u)
    ensures IsIdom(g, d, w)
  {
    var s := semi[w];
    SemiIsAncestor(g, t, s, w);
    DomIsAncestor(g, t, d, u);
    DominatorAboveSemi(g, t, semi[u], u, d);
    SemiIsAncestor(g, t, semi[u], u);
    AncTransitive(g, t, d, u, w);
    assert Between(t, s, w, w);
    forall p | PathBetween(g, p, 0, w)
      ensures d in p
    {
      if d !in p {
        var q := EntersBelow(g, t, d, w, p);
        var y := q[|q| - 1];
        assert SemiPathTo(g, t, q, y);
        assert !Between(t, s, y, w);
        if t.dfn[y] <= t.dfn[s] {
          AncTransitive(g, t, y, s, u);
          var r := PathAround(g, t, q, u, d);
        }
        assert false;
      }
    }
    forall x: nat | SDom(g, x, w)
      ensures Dom(g, x, d)
    {
      DominatorAboveSemi(g, t, s, w, x);
      AncTransitive(g, t, x, s, u);
      DomOfTreeAncestor(g, t, x, u, w);
      assert x != u by { if x == u { AncAntisymmetric(g, t, s, u); } }
    }
  }

  /** A semi-path that starts before `d` and ends below it on the way to `u` leads to `u` around `d`. */
  lemma PathAround(g: Graph, t: Tree, q: seq<nat>, u: nat, d: nat) returns (p: seq<nat>)
    requires IsDfsTree(g, t) && SemiPath(g, t, q) && d < |t.dfn| && t.dfn[q[0]] < t.dfn[d]
    requires t.dfn[d] < t.dfn[q[|q| - 1]] && Anc(t, q[|q| - 1], u)
    ensures PathBetween(g, p, 0, u) && d !in p
  {
    var y, x := q[|q| - 1], q[0];
    RootIsAncestor(g, t, x);
    var a, c := TreePath(g, t, 0, x), TreePath(g, t, y, u);
    JoinPaths(g, a, q);
    JoinPaths(g, a + q[1..], c);
    NotInTail(q, d);
    NotInTail(c, d);
    p := a + q[1..] + c[1..];
  }

  // ---- the semidominator of a block from those of later blocks ----

  lemma CandidateFromAncestor(g: Graph, t: Tree, v: nat, w: nat, u: nat, s: nat) returns (p: seq<nat>)
    requires IsDfsTree(g, t) && v < |g.succs| && w < |g.succs| && Edge(g, v, w)
    requires Anc(t, u, v) && t.dfn[w] < t.dfn[u] && IsSemi(g, t, s, u)
    ensures SemiPathBetween(g, t, p, s, w)
  {
    var a :| SemiPathBetween(g, t, a, s, u);
    var b := TreePath(g, t, u, v);
    JoinPaths(g, a, b);
    var c := a + b[1..];
    ExtendPath(g, c, w);
    p := c + [w];
    forall i | 0 < i < |p| - 1
      ensures t.dfn[p[i]] > t.dfn[w]
    {
      if i < |a| {
        assert p[i] == a[i];
      } else {
        assert p[i] == b[i - |a| + 1];
      }
    }
  }

  /** And nothing that starts a semi-path is missed. */
  lemma CandidatesSuffice(g: Graph, t: Tree, q: seq<nat>, w: nat) returns (v: nat, u: nat)
    requires IsDfsTree(g, t) && SemiPathTo(g, t, q, w) && t.dfn[q[0]] < t.dfn[w]
    ensures v < |g.succs| && Edge(g, v, w)
    ensures v == q[0] || (Anc(t, u, v) && t.dfn[w] < t.dfn[u] && exists p :: SemiPathBetween(g, t, p, q[0], u))
  {
    var n := |q|;
    v, u := q[n - 2], 0;
    if n > 2 {
      var j := 1;
      while !Anc(t, q[j], v)
        invariant 1 <= j <= n - 2
        invariant forall i :: 1 <= i < j ==> !Anc(t, q[i], v)
        decreases n - j
      {
        j := j + 1;
      }
      u := q[j];
      Subpath(g, q, 0, j + 1);
      forall i | 0 < i < j
        ensures t.dfn[q[i]] > t.dfn[u]
      {
        FirstAncestorIsLowest(g, t, q, v, i, j);
      }
      assert SemiPathBetween(g, t, q[0..j + 1], q[0], u);
    }
  }

  lemma FirstAncestorIsLowest(g: Graph, t: Tree, q: seq<nat>, v: nat, i: nat, j: nat)
    requires IsDfsTree(g, t) && IsPath(g, q) && 0 < i < j < |q| && Anc(t, q[j], v)
    requires forall i :: 1 <= i < j ==> !Anc(t, q[i], v)
    ensures t.dfn[q[i]] > t.dfn[q[j]]
  {
    Subpath(g, q, i, j + 1);
    var m := PathMinimum(g, t, q[i..j + 1]);
    assert q[i..j + 1][j - i] == q[j] && q[i..j + 1][0] == q[i] && q[i..j + 1][m] == q[i + m];
    AncTransitive(g, t, q[i + m], q[j], v);
  }
}
