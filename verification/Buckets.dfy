/**
 The main loop of the Lengauer-Tarjan pass, one step at a time: which blocks
 have their semidominator, which wait in a bucket, and which already know the
 block that decides their dominator.
 */
module Buckets {
  import opened Digraph
  import opened Semidominators
  import opened LinkForest

  /** Blocks visited after `bound` have their semidominator, the others still point to themselves. */
  ghost predicate SemisDone(g: Graph, t: Tree, bound: int, semi: seq<nat>) {
    && |semi| == |t.dfn| == |g.succs|
    && forall v: nat {:trigger semi[v]} :: v < |t.dfn| ==>
        if t.dfn[v] > bound then IsSemi(g, t, semi[v], v) else semi[v] == v
  }

  /** Some child `c` of `s` on the way to `w` is still to be processed. */
  ghost predicate Waiting(t: Tree, bound: int, s: nat, w: nat) {
    exists c: nat :: ChildToward(t, s, c, w) && t.dfn[c] <= bound
  }

  ghost predicate ChildToward(t: Tree, s: nat, c: nat, w: nat) {
    0 < c < |t.dfn| == |t.father| && t.father[c] == s && Anc(t, c, w)
  }

  /**
   All blocks between the semidominator of `w` and `w` are visited after `bound`, and `d` is
   either that semidominator, when none of them has an earlier one, or the one with the earliest.
   */
  ghost predicate Settled(t: Tree, bound: int, semi: seq<nat>, d: nat, w: nat) {
    && w < |semi| == |t.dfn|
    && semi[w] < |t.dfn|
    && (forall y: nat :: Between(t, semi[w], y, w) ==> t.dfn[y] > bound)
    && if d == semi[w] then
         forall y: nat :: Between(t, semi[w], y, w) ==> semi[y] < |t.dfn| && t.dfn[semi[w]] <= t.dfn[semi[y]]
       else
         && Between(t, semi[w], d, w)
         && d != w
         && forall y: nat :: Between(t, semi[w], y, w) ==> NoLater(t, semi, d, y)
  }

  lemma ChildExists(g: Graph, t: Tree, s: nat, w: nat) returns (c: nat)
    requires IsDfsTree(g, t) && Anc(t, s, w) && s != w
    ensures ChildToward(t, s, c, w)
    decreases t.dfn[w]
  {
    assert t.father[w] < |t.dfn|;
    if t.father[w] == s {
      c := w;
      assert t.dfn[w] < t.last[w];
    } else {
      c := ChildExists(g, t, s, t.father[w]);
      assert t.dfn[t.father[w]] < t.dfn[w];
      assert t.last[w] <= t.last[t.father[w]];
      assert t.dfn[w] < t.last[w];
      AncTransitive(g, t, c, t.father[w], w);
    }
  }

  /** With the last bound reached, nothing waits any more. */
  lemma NothingWaits(g: Graph, t: Tree, s: nat, w: nat)
    requires IsDfsTree(g, t)
    ensures !Waiting(t, 0, s, w)
  {
    assert forall c: nat :: 0 < c < |t.dfn| ==> t.dfn[c] > 0 by {
      assert t.dfn[0] == 0;
    }
  }

  /** A block waiting below the tree parent of `b`, with `b` next in line, waits for `b` itself. */
  lemma WaitsForNext(g: Graph, t: Tree, b: nat, w: nat)
    requires IsDfsTree(g, t) && 0 < b < |t.dfn| && w < |t.dfn| && t.dfn[b] <= t.dfn[w]
    requires Waiting(t, t.dfn[b], t.father[b], w)
    ensures Anc(t, b, w)
  {
    var c: nat :| ChildToward(t, t.father[b], c, w) && t.dfn[c] <= t.dfn[b];
    assert t.father[c] == t.father[b] && t.dfn[c] < t.last[c];
    assert t.dfn[t.father[c]] < t.dfn[c];
    assert c == b;
  }

  /** Blocks that wait below another parent do not wait for `b`. */
  lemma StillWaits(g: Graph, t: Tree, b: nat, s: nat, w: nat)
    requires IsDfsTree(g, t) && 0 < b < |t.dfn| && Waiting(t, t.dfn[b], s, w) && s != t.father[b]
    ensures Waiting(t, t.dfn[b] - 1, s, w)
  {
    var c: nat :| ChildToward(t, s, c, w) && t.dfn[c] <= t.dfn[b];
    var bound := t.dfn[b] - 1;
    assert c != b;
    assert ChildToward(t, s, c, w) && t.dfn[c] <= bound;
  }

  // ---- computing one semidominator ----

  /** What the scan of the predecessors knows about the value `s` held for `w` so far. */
  ghost predicate Candidate(g: Graph, t: Tree, s: nat, w: nat) {
    s == w || (s < |t.dfn| && exists p :: SemiPathBetween(g, t, p, s, w))
  }

  /** The value `s` held for `w` is no later than anything predecessor `v` offers. */
  ghost predicate Covers(t: Tree, semi: seq<nat>, s: nat, w: nat, v: nat) {
    && |semi| == |t.dfn|
    && s < |t.dfn| && v < |t.dfn| && w < |t.dfn|
    && (t.dfn[v] <= t.dfn[w] ==> t.dfn[s] <= t.dfn[v])
    && forall u: nat :: Anc(t, u, v) && t.dfn[w] < t.dfn[u] ==> u < |semi| && semi[u] < |t.dfn| && t.dfn[s] <= t.dfn[semi[u]]
  }

  /** The start of a tree path whose other blocks are all visited after `w` starts a semi-path through `v` to `w`. */
  lemma CandidateFromRoot(g: Graph, t: Tree, r: nat, v: nat, w: nat)
    requires IsDfsTree(g, t) && Anc(t, r, v) && Edge(g, v, w) && w < |t.dfn|
    requires forall y: nat :: Between(t, r, y, v) ==> t.dfn[y] > t.dfn[w]
    ensures Candidate(g, t, r, w)
  {
    var b := TreePath(g, t, r, v);
    TreePathBelow(g, t, r, v);
    ExtendPath(g, b, w);
    var p := b + [w];
    forall i | 0 < i < |p| - 1
      ensures t.dfn[p[i]] > t.dfn[w]
    {
      assert Between(t, r, b[i], v);
    }
    assert SemiPathBetween(g, t, p, r, w);
  }

  /** One predecessor of `w`, after its query answered root `r` and minimum `m`. */
  lemma OfferedByPred(g: Graph, t: Tree, semi: seq<nat>, w: nat, v: nat, r: nat, m: nat)
    requires IsDfsTree(g, t) && 0 < w < |t.dfn| && v < |t.dfn| && Edge(g, v, w)
    requires |semi| == |t.dfn| && SemisDone(g, t, t.dfn[w], semi[w := w]) && Candidate(g, t, semi[w], w) && semi[w] < |t.dfn|
    requires t.dfn[semi[w]] <= t.dfn[w]
    requires IsRoot(t, t.dfn[w], r, v) && IsMinimum(t, semi, r, m, v)
    ensures Candidate(g, t, semi[m], w)
    ensures Covers(t, semi, if t.dfn[semi[m]] < t.dfn[semi[w]] then semi[m] else semi[w], w, v)
  {
    var s := if t.dfn[semi[m]] < t.dfn[semi[w]] then semi[m] else semi[w];
    assert semi[w := w][w] == w;
    if m == r {
      if r != w {
        assert semi[w := w][r] == r;
        CandidateFromRoot(g, t, r, v, w);
      }
    } else {
      assert Between(t, r, m, v);
      assert t.dfn[m] > t.dfn[w];
      assert semi[w := w][m] == semi[m];
      var p := CandidateFromAncestor(g, t, v, w, m, semi[m]);
    }
    forall u: nat | Anc(t, u, v) && t.dfn[w] < t.dfn[u]
      ensures semi[u] < |t.dfn| && t.dfn[s] <= t.dfn[semi[u]]
    {
      AncComparable(g, t, r, u, v);
      assert Between(t, r, u, v);
      assert NoLater(t, semi, m, u);
    }
    if t.dfn[v] <= t.dfn[w] {
      assert r == v;
      if v != w {
        assert semi[w := w][v] == v;
      }
    }
  }

  /** Lowering the value held keeps what it covered. */
  lemma CoversMore(t: Tree, semi: seq<nat>, s: nat, w: nat, v: nat, s': nat)
    requires Covers(t, semi, s, w, v) && s' < |t.dfn| && t.dfn[s'] <= t.dfn[s]
    ensures Covers(t, semi[w := s'], s', w, v)
  {
    forall u: nat | Anc(t, u, v) && t.dfn[w] < t.dfn[u]
      ensures semi[w := s'][u] < |t.dfn| && t.dfn[s'] <= t.dfn[semi[w := s'][u]]
    {
      assert semi[w := s'][u] == semi[u];
    }
  }

  lemma KeepCovered(g: Graph, t: Tree, semi: seq<nat>, semi': seq<nat>, w: nat)
    requires w < |semi| == |semi'| && semi' == semi[w := semi'[w]]
    requires semi[w] < |t.dfn| && semi'[w] < |t.dfn| && t.dfn[semi'[w]] <= t.dfn[semi[w]]
    ensures forall v: nat :: v < |g.succs| && Covers(t, semi, semi[w], w, v) ==> Covers(t, semi', semi'[w], w, v)
  {
    forall v: nat | v < |g.succs| && Covers(t, semi, semi[w], w, v)
      ensures Covers(t, semi', semi'[w], w, v)
    {
      CoversMore(t, semi, semi[w], w, v, semi'[w]);
    }
  }

  /** After all predecessors are scanned, the value held is the semidominator. */
  lemma ScanIsComplete(g: Graph, t: Tree, semi: seq<nat>, w: nat)
    requires IsDfsTree(g, t) && 0 < w < |t.dfn| && |semi| == |t.dfn|
    requires SemisDone(g, t, t.dfn[w], semi[w := w]) && Candidate(g, t, semi[w], w) && semi[w] < |t.dfn|
    requires forall v: nat :: v < |t.dfn| && Edge(g, v, w) ==> Covers(t, semi, semi[w], w, v)
    ensures IsSemi(g, t, semi[w], w)
  {
    var s := semi[w];
    assert Edge(g, t.father[w], w);
    assert Covers(t, semi, s, w, t.father[w]);
    assert t.dfn[t.father[w]] < t.dfn[w];
    forall q | SemiPathTo(g, t, q, w)
      ensures t.dfn[s] <= t.dfn[q[0]]
    {
      if t.dfn[q[0]] < t.dfn[w] {
        var v, u := CandidatesSuffice(g, t, q, w);
        assert Covers(t, semi, s, w, v);
        if v != q[0] {
          assert semi[w := w][u] == semi[u];
          var p :| SemiPathBetween(g, t, p, q[0], u);
          assert SemiPathTo(g, t, p, u);
        }
      }
    }
  }

  lemma SemisAdvance(g: Graph, t: Tree, semi: seq<nat>, w: nat)
    requires IsDfsTree(g, t) && 0 < w < |t.dfn| == |semi| && IsSemi(g, t, semi[w], w)
    requires SemisDone(g, t, t.dfn[w], semi[w := w])
    ensures SemisDone(g, t, t.dfn[w] - 1, semi)
  {
    forall v: nat {:trigger semi[v]} | v < |t.dfn|
      ensures if t.dfn[v] > t.dfn[w] - 1 then IsSemi(g, t, semi[v], v) else semi[v] == v
    {
      assert v != w ==> semi[w := w][v] == semi[v];
    }
  }

  // ---- emptying one bucket ----

  /** The answer of the query of `w`, waiting below `f`, settles `w`. */
  lemma SettleFromQuery(g: Graph, t: Tree, semi: seq<nat>, b: nat, w: nat, r: nat, m: nat)
    requires IsDfsTree(g, t) && 0 < b < |t.dfn| && w < |t.dfn| && t.dfn[b] <= t.dfn[w] && |semi| == |t.dfn|
    requires Waiting(t, t.dfn[b], t.father[b], w) && semi[w] == t.father[b] && semi[t.father[b]] == t.father[b]
    requires IsRoot(t, t.dfn[b] - 1, r, w) && IsMinimum(t, semi, r, m, w)
    ensures Settled(t, t.dfn[b] - 1, semi, if semi[m] == t.father[b] then t.father[b] else m, w)
  {
    var f := t.father[b];
    WaitsForNext(g, t, b, w);
    assert t.dfn[f] < t.dfn[b] && t.last[b] <= t.last[f] && f < |t.dfn|;
    assert Anc(t, f, w);
    AncComparable(g, t, f, r, w);
    AncComparable(g, t, r, b, w);
    assert r == f;
    forall y: nat | Between(t, f, y, w)
      ensures NoLater(t, semi, m, y) && t.dfn[y] > t.dfn[b] - 1
    {
      assert t.dfn[y] < t.dfn[b] ==> Anc(t, y, b);
    }
    if semi[m] != f {
      assert m != f;
      assert Between(t, f, m, w);
    }
  }

  /** Settling depends only on semidominators of blocks at or after `bound`. */
  lemma SettledStays(g: Graph, t: Tree, bound: int, semi: seq<nat>, d: nat, w: nat, b: nat, s: nat)
    requires IsDfsTree(g, t) && SemisDone(g, t, bound, semi) && Settled(t, bound, semi, d, w)
    requires b < |t.dfn| && t.dfn[b] <= bound < t.dfn[w]
    ensures Settled(t, bound, semi[b := s], d, w)
  {
    if d != semi[w] {
      forall y: nat | Between(t, semi[w], y, w)
        ensures NoLater(t, semi[b := s], d, y)
      {
        assert NoLater(t, semi, d, y);
      }
    }
  }

  // ---- the final pass ----

  /** Settled blocks get their immediate dominator in visit order. */
  lemma FinalStep(g: Graph, t: Tree, semi: seq<nat>, d: nat, w: nat, e: nat)
    requires IsDfsTree(g, t) && SemisDone(g, t, 0, semi) && 0 < w < |t.dfn| && Settled(t, 0, semi, d, w)
    requires d != semi[w] ==> IsIdom(g, e, d)
    ensures IsIdom(g, if d == semi[w] then d else e, w)
  {
    assert AllSemis(g, t, semi) by {
      forall v: nat | 0 < v < |g.succs|
        ensures IsSemi(g, t, semi[v], v)
      {
        assert t.dfn[v] != t.dfn[0];
      }
    }
    if d == semi[w] {
      SemiIsIdom(g, t, semi, w);
    } else {
      SemiIsAncestor(g, t, semi[w], w);
      assert d != 0 by { assert t.dfn[0] == 0; }
      IdomOfMinimum(g, t, semi, w, d, e);
    }
  }
}
