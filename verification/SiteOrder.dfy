/**
 Which of two instructions was executed last. When one dominates the other and both are
 in force at a third, the dominating one has not been executed again in between.
 */
module SiteOrder {
  import opened Digraph
  import opened DominanceFrontier
  import opened Options
  import opened ReachingDefinitions

  /** Every path executes `x` before it gets to `u`. */
  ghost predicate SiteDom(g: Graph, x: Site, u: Site) {
    if x.block == u.block then x.index < u.index else Dom(g, x.block, u.block)
  }

  lemma SiteDomTransitive(g: Graph, x: Site, y: Site, u: Site)
    requires AllReachable(g) && x.block < |g.succs| && SiteDom(g, x, y) && SiteDom(g, y, u)
    ensures SiteDom(g, x, u)
  {
    if x.block != y.block && y.block != u.block {
      DomTransitive(g, x.block, y.block, u.block);
      if x.block == u.block {
        DomAntisymmetric(g, x.block, y.block);
      }
    }
  }

  lemma SiteDomIrreflexive(g: Graph, x: Site)
    ensures !SiteDom(g, x, x)
  {
  }

  /** The last visit of block `b` on the path, or -1. */
  ghost function LastFull(p: seq<nat>, b: nat): (k: int)
    ensures -1 <= k < |p| && (k == -1 <==> b !in p) && (k >= 0 ==> p[k] == b && forall j :: k < j < |p| ==> p[j] != b)
  {
    if p == [] then -1 else if p[|p| - 1] == b then |p| - 1 else LastFull(p[..|p| - 1], b)
  }

  /** The last visit in which `x` was executed, when the last block of the path has been executed up to instruction `i`. */
  ghost function LastAt(p: seq<nat>, i: nat, x: Site): int
    requires p != []
  {
    if p[|p| - 1] == x.block && x.index < i then |p| - 1 else LastFull(p[..|p| - 1], x.block)
  }

  /** `x` has not been executed after the last execution of `y`. */
  ghost predicate NotAfter(p: seq<nat>, i: nat, x: Site, y: Site)
    requires p != []
  {
    LastAt(p, i, x) < LastAt(p, i, y) || (LastAt(p, i, x) == LastAt(p, i, y) && x.index <= y.index)
  }

  lemma FirstIsFirst(p: seq<nat>, x: nat, f: nat, k: nat)
    requires f <= |p| && x !in p[..f] && k < |p| && p[k] == x
    ensures f <= k
  {
  }

  /** No visit of `y` comes before the first visit of `x`, which dominates it. */
  lemma DominatorFirst(g: Graph, p: seq<nat>, x: nat, y: nat, f: nat, j: nat)
    requires IsPath(g, p) && p[0] == 0 && Dom(g, x, y) && f <= |p| && x !in p[..f] && j < |p| && p[j] == y
    ensures f <= j
  {
    Subpath(g, p, 0, j + 1);
    assert x in p[0..j + 1];
    var l :| 0 <= l < j + 1 && p[0..j + 1][l] == x;
    FirstIsFirst(p, x, f, l);
  }

  /** The path to the first visit of `x` and then on from a later visit. */
  lemma Shortcut(g: Graph, p: seq<nat>, f: nat, k: nat)
    requires IsPath(g, p) && p[0] == 0 && f <= k < |p| && p[f] == p[k]
    ensures PathBetween(g, p[..f + 1] + p[k + 1..], 0, p[|p| - 1])
  {
    var r := p[..f + 1] + p[k + 1..];
    forall j | 0 <= j < |r| - 1
      ensures Edge(g, r[j], r[j + 1])
    {
      if j >= f {
        assert r[j] == p[j - f + k] && r[j + 1] == p[j - f + k + 1];
      }
    }
  }

  lemma LastFullSame(p: seq<nat>, b: nat)
    requires p != [] && p[|p| - 1] != b
    ensures LastFull(p, b) == LastFull(p[..|p| - 1], b)
  {
  }

  /** The same for blocks: on a path to `u`, the last visit of `y` is later than that of `x`. */
  lemma FreshBlock(g: Graph, p: seq<nat>, x: nat, y: nat)
    requires IsPath(g, p) && p[0] == 0
    requires Dom(g, x, y) && x != y && Dom(g, y, p[|p| - 1]) && y != p[|p| - 1]
    ensures LastFull(p, y) >= 0 && (x == p[|p| - 1] || LastFull(p, x) < LastFull(p, y))
  {
    hide Dom;
    if x != p[|p| - 1] && LastFull(p, x) >= LastFull(p, y) {
      DominatorOnPath(g, p, y);
      var k: nat := LastFull(p, x);
      var f := FirstVisitIndex(p, x, k);
      Shortcut(g, p, f, k);
      NotOnShortcut(g, p, x, y, k, f, LastFull(p, y));
      DominatorOnPath(g, p[..f + 1] + p[k + 1..], y);
    } else {
      DominatorOnPath(g, p, y);
    }
  }

  lemma DominatorOnPath(g: Graph, p: seq<nat>, y: nat)
    requires IsPath(g, p) && p[0] == 0 && Dom(g, y, p[|p| - 1])
    ensures y in p
  {
    assert PathBetween(g, p, 0, p[|p| - 1]);
  }

  /** On a path to `u`, which `y` dominates, `x` that dominates `y` has not been executed after `y`. */
  lemma Fresh(g: Graph, p: seq<nat>, i: nat, x: Site, y: Site)
    requires AllReachable(g) && IsPath(g, p) && p[0] == 0 && x.block < |g.succs|
    requires SiteDom(g, y, Site(p[|p| - 1], i)) && (x == y || SiteDom(g, x, y))
    ensures LastAt(p, i, y) >= 0 && NotAfter(p, i, x, y)
  {
    hide Dom, LastFull;
    var b := p[|p| - 1];
    if y.block != b {
      LastFullSame(p, y.block);
      if x.block == y.block {
        DominatorOnPath(g, p, y.block);
      } else {
        FreshBlock(g, p, x.block, y.block);
        if x.block == b {
          DomAntisymmetric(g, x.block, y.block);
        } else {
          LastFullSame(p, x.block);
        }
      }
    }
  }

  lemma NotOnShortcut(g: Graph, p: seq<nat>, x: nat, y: nat, k: nat, f: nat, last: int)
    requires IsPath(g, p) && p[0] == 0 && f <= k < |p| && p[f] == x == p[k] && x !in p[..f]
    requires Dom(g, x, y) && x != y && last < k && forall j :: 0 <= j && last < j < |p| ==> p[j] != y
    ensures y !in p[..f + 1] + p[k + 1..]
  {
    forall j | 0 <= j < f + 1
      ensures p[j] != y
    {
      if p[j] == y {
        DominatorFirst(g, p, x, y, f, j);
      }
    }
  }

  // ---- the last definition ----

  /** The last definition of `v` on the path is in the last visit of its block, and nothing defines `v` later. */
  lemma {:induction false} ReachingAt(blocks: seq<seq<Instr>>, v: nat, p: seq<nat>, s: Site)
    requires (forall i :: 0 <= i < |p| ==> p[i] < |blocks|) && Reaching(blocks, v, p) == Some(s)
    ensures s.block < |blocks| && LastDef(blocks[s.block], v) == Some(s.index)
    ensures LastFull(p, s.block) >= 0 && forall k :: LastFull(p, s.block) < k < |p| ==> !DefinedIn(blocks, v, p[k])
  {
    hide LastDef;
    var m := |p| - 1;
    var q := p[..m];
    if LastDef(blocks[p[m]], v).None? {
      ReachingAt(blocks, v, q, s);
      assert s.block != p[m];
      forall k | LastFull(p, s.block) < k < |p|
        ensures !DefinedIn(blocks, v, p[k])
      {
        if k < m {
          assert q[k] == p[k];
        }
      }
    }
  }

  /** Where `s` is the last definition of a variable, what dominates `s` has not been executed since. */
  lemma FreshDefinition(g: Graph, blocks: seq<seq<Instr>>, v: nat, idom: seq<nat>, p: seq<nat>, x: Site, s: Site)
    requires ValidCode(g, blocks) && AllReachable(g) && EntryHasNoPred(g) && PhisPlaced(g, blocks, v) && IdomsOf(g, idom)
    requires IsPath(g, p) && p[0] == 0 && Reaching(blocks, v, p) == Some(s) && (x == s || SiteDom(g, x, s))
    ensures LastFull(p, s.block) >= 0
    ensures LastFull(p, x.block) < LastFull(p, s.block) || (LastFull(p, x.block) == LastFull(p, s.block) && x.index <= s.index)
  {
    ReachingAt(blocks, v, p, s);
    if x.block != s.block && LastFull(p, x.block) > LastFull(p, s.block) {
      var k: nat := LastFull(p, x.block);
      assert Edge(g, p[k - 1], p[k]);
      NothingFrom(blocks, v, p, k);
      NoPhiWithoutDef(blocks, v, x.block);
      var f := FirstVisitIndex(p, x.block, k);
      ReachedTheSame(g, blocks, v, idom, p, x.block, f, k);
      ReachingAt(blocks, v, p[..f], s);
      var j: nat := LastFull(p[..f], s.block);
      assert p[j] == p[..f][j];
      DominatorFirst(g, p, x.block, s.block, f, j);
    }
  }

  lemma FirstVisitIndex(p: seq<nat>, x: nat, k: nat) returns (f: nat)
    requires k < |p| && p[k] == x
    ensures f <= k && p[f] == x && x !in p[..f]
  {
    if x in p[..k] {
      var j :| 0 <= j < k && p[..k][j] == x;
      f := FirstVisitIndex(p, x, j);
    } else {
      f := k;
    }
  }

  /** Two visits of a block without a phi find the same definition. */
  lemma ReachedTheSame(g: Graph, blocks: seq<seq<Instr>>, v: nat, idom: seq<nat>, p: seq<nat>, b: nat, f: nat, k: nat)
    requires ValidCode(g, blocks) && AllReachable(g) && PhisPlaced(g, blocks, v) && IdomsOf(g, idom)
    requires IsPath(g, p) && p[0] == 0 && f <= k < |p| && p[f] == p[k] == b && 0 < b < |blocks| && Phi(v) !in blocks[b]
    ensures forall i :: 0 <= i < k ==> p[..k][i] < |blocks|
    ensures forall i :: 0 <= i < f ==> p[..f][i] < |blocks|
    ensures Reaching(blocks, v, p[..f]) == Reaching(blocks, v, p[..k])
  {
    Subpath(g, p, 0, f + 1);
    Subpath(g, p, 0, k + 1);
    assert p[0..f + 1] == p[..f + 1] && p[0..k + 1] == p[..k + 1];
    assert p[..f + 1][..f] == p[..f] && p[..k + 1][..k] == p[..k];
    SameDefinitionArrives(g, blocks, v, idom, b, p[..f + 1], p[..k + 1]);
  }

  lemma NothingFrom(blocks: seq<seq<Instr>>, v: nat, p: seq<nat>, k: nat)
    requires (forall i :: 0 <= i < |p| ==> p[i] < |blocks|) && k <= |p| && forall j :: k <= j < |p| ==> !DefinedIn(blocks, v, p[j])
    ensures forall i :: 0 <= i < k ==> p[..k][i] < |blocks|
    ensures Reaching(blocks, v, p[..k]) == Reaching(blocks, v, p)
  {
    assert p[..k] + p[k..] == p;
    ReachingSplit(blocks, v, p[..k], p[k..]);
    NoDefNoReach(blocks, v, p[k..]);
  }

  lemma NoPhiWithoutDef(blocks: seq<seq<Instr>>, v: nat, b: nat)
    requires b < |blocks| && !DefinedIn(blocks, v, b)
    ensures Phi(v) !in blocks[b]
  {
  }
}
