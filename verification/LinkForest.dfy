/**
 The link-eval forest of the Lengauer-Tarjan algorithm, as a relation between
 the arrays it lives in and the depth-first tree it abbreviates. Blocks visited
 after `bound` are linked to an ancestor; the others are roots.
 */
module LinkForest {
  import opened Digraph
  import opened Semidominators

  ghost predicate Entry(t: Tree, bound: int, unionSet: seq<nat>, minNode: seq<nat>, semi: seq<nat>, x: nat)
    requires |unionSet| == |minNode| == |semi| == |t.dfn| && x < |t.dfn|
  {
    if t.dfn[x] <= bound then
      unionSet[x] == x && minNode[x] == x
    else
      && LinksUp(t, bound, unionSet[x], x)
      && LowestOn(t, semi, unionSet[x], minNode[x], x)
  }

  /** `a` is a proper ancestor of `x` and no root lies strictly between them. */
  ghost predicate LinksUp(t: Tree, bound: int, a: nat, x: nat) {
    && Anc(t, a, x)
    && a != x
    && forall y: nat :: Anc(t, y, x) && t.dfn[y] <= bound ==> t.dfn[y] <= t.dfn[a]
  }

  /** `m` is on the tree path from `a` to `x`, no block below `a` on it has an earlier semidominator, and `a` itself only wins strictly. */
  ghost predicate LowestOn(t: Tree, semi: seq<nat>, a: nat, m: nat, x: nat)
  {
    && |semi| == |t.dfn|
    && Anc(t, a, m)
    && Anc(t, m, x)
    && (forall y: nat :: Between(t, a, y, x) ==> NoLater(t, semi, m, y))
    && (m == a ==> forall y: nat :: Between(t, a, y, x) ==> Earlier(t, semi, a, y))
  }

  /** The semidominator recorded for `m` is visited strictly before the one recorded for `y`. */
  ghost predicate Earlier(t: Tree, semi: seq<nat>, m: nat, y: nat)
  {
    NoLater(t, semi, m, y) && t.dfn[semi[m]] < t.dfn[semi[y]]
  }

  /** The semidominator recorded for `m` is visited no later than the one recorded for `y`. */
  ghost predicate NoLater(t: Tree, semi: seq<nat>, m: nat, y: nat)
  {
    && m < |semi| == |t.dfn|
    && y < |t.dfn|
    && semi[m] < |t.dfn|
    && semi[y] < |t.dfn|
    && t.dfn[semi[m]] <= t.dfn[semi[y]]
  }

  ghost predicate Forest(t: Tree, bound: int, unionSet: seq<nat>, minNode: seq<nat>, semi: seq<nat>) {
    && |unionSet| == |minNode| == |semi| == |t.dfn|
    && (forall x: nat {:trigger semi[x]} :: x < |t.dfn| ==> semi[x] < |t.dfn|)
    && forall x: nat :: x < |t.dfn| ==> Entry(t, bound, unionSet, minNode, semi, x)
  }

  /** `r` is the root of the forest tree that holds `x`: its lowest ancestor that is not linked. */
  ghost predicate IsRoot(t: Tree, bound: int, r: nat, x: nat) {
    && Anc(t, r, x)
    && t.dfn[r] <= bound
    && forall y: nat :: Anc(t, y, x) && t.dfn[y] <= bound ==> t.dfn[y] <= t.dfn[r]
  }

  /** What a query of `x` must leave in `minNode[x]`: the minimum over the whole forest path, root included. */
  ghost predicate IsMinimum(t: Tree, semi: seq<nat>, r: nat, m: nat, x: nat) {
    && LowestOn(t, semi, r, m, x)
    && NoLater(t, semi, m, r)
  }

  lemma RootIsUnique(g: Graph, t: Tree, bound: int, r: nat, r': nat, x: nat)
    requires IsDfsTree(g, t) && IsRoot(t, bound, r, x) && IsRoot(t, bound, r', x)
    ensures r == r'
  {
    AncComparable(g, t, r, r', x);
  }

  /**
   One step of path compression: the answer for the link of `x`, combined with
   what `x` already knows, is the answer for `x`.
   */
  lemma Compress(g: Graph, t: Tree, bound: int, semi: seq<nat>, a: nat, m: nat, m': nat, r: nat, x: nat)
    requires IsDfsTree(g, t) && |semi| == |t.dfn|
    requires LinksUp(t, bound, a, x) && LowestOn(t, semi, a, m, x)
    requires IsRoot(t, bound, r, a) && IsMinimum(t, semi, r, m', a)
    requires forall y: nat {:trigger semi[y]} :: y < |t.dfn| ==> semi[y] < |t.dfn|
    ensures IsRoot(t, bound, r, x)
    ensures LinksUp(t, bound, r, x)
    ensures IsMinimum(t, semi, r, if t.dfn[semi[m']] < t.dfn[semi[m]] then m' else m, x)
  {
    AncTransitive(g, t, r, a, x);
    AncTransitive(g, t, m', a, x);
    AncTransitive(g, t, r, a, m);
    forall y: nat {:trigger Anc(t, y, x)} | Anc(t, y, x) && t.dfn[y] <= bound
      ensures t.dfn[y] <= t.dfn[r]
    {
      AncComparable(g, t, y, a, x);
    }
    var best := if t.dfn[semi[m']] < t.dfn[semi[m]] then m' else m;
    forall y: nat | Between(t, r, y, x)
      ensures NoLater(t, semi, best, y)
      ensures best == r ==> Earlier(t, semi, r, y)
    {
      if t.dfn[y] <= t.dfn[a] {
        AncComparable(g, t, y, a, x);
        assert Between(t, r, y, a);
      } else {
        AncComparable(g, t, a, y, x);
        assert Between(t, a, y, x);
      }
    }
  }

  /** Rewriting one entry by its compressed form keeps the forest. */
  lemma RewriteEntry(g: Graph, t: Tree, bound: int, unionSet: seq<nat>, minNode: seq<nat>, semi: seq<nat>, x: nat, r: nat, m: nat)
    requires IsDfsTree(g, t) && Forest(t, bound, unionSet, minNode, semi) && x < |t.dfn| && t.dfn[x] > bound
    requires LinksUp(t, bound, r, x) && LowestOn(t, semi, r, m, x)
    ensures Forest(t, bound, unionSet[x := r], minNode[x := m], semi)
  {
    var unionSet', minNode' := unionSet[x := r], minNode[x := m];
    forall y: nat | y < |t.dfn|
      ensures Entry(t, bound, unionSet', minNode', semi, y)
    {
      assert Entry(t, bound, unionSet, minNode, semi, y);
    }
  }

  /** The forest survives a lowering of the semidominator of a root. */
  lemma LowerRootSemi(g: Graph, t: Tree, bound: int, unionSet: seq<nat>, minNode: seq<nat>, semi: seq<nat>, w: nat, s: nat)
    requires IsDfsTree(g, t) && Forest(t, bound, unionSet, minNode, semi)
    requires w < |t.dfn| && t.dfn[w] <= bound && s < |t.dfn| && t.dfn[s] <= t.dfn[semi[w]]
    ensures Forest(t, bound, unionSet, minNode, semi[w := s])
  {
    var semi' := semi[w := s];
    forall x: nat | x < |t.dfn|
      ensures Entry(t, bound, unionSet, minNode, semi', x)
    {
      assert Entry(t, bound, unionSet, minNode, semi, x);
      if t.dfn[x] > bound {
        forall y: nat | Between(t, unionSet[x], y, x)
          ensures NoLater(t, semi', minNode[x], y)
        {
          assert NoLater(t, semi, minNode[x], y);
          assert y != w;
        }
        assert minNode[x] == unionSet[x] ==> forall y: nat :: Between(t, unionSet[x], y, x) ==> Earlier(t, semi, unionSet[x], y);
      }
    }
  }

  /** Linking the next block to its tree parent. */
  lemma LinkNext(g: Graph, t: Tree, bound: int, unionSet: seq<nat>, minNode: seq<nat>, semi: seq<nat>, w: nat)
    requires IsDfsTree(g, t) && Forest(t, bound, unionSet, minNode, semi)
    requires 0 < w < |t.dfn| && t.dfn[w] == bound
    ensures t.father[w] < |t.dfn| && Forest(t, bound - 1, unionSet[w := t.father[w]], minNode, semi)
  {
    var f := t.father[w];
    var unionSet', b := unionSet[w := f], bound - 1;
    forall x: nat | x < |t.dfn|
      ensures Entry(t, b, unionSet', minNode, semi, x)
    {
      assert Entry(t, bound, unionSet, minNode, semi, x);
      if x == w {
        assert Anc(t, f, w) by { assert t.dfn[w] < t.last[w]; }
        forall y: nat | Anc(t, y, w) && t.dfn[y] <= b
          ensures t.dfn[y] <= t.dfn[f]
        {
        }
        assert LinksUp(t, b, f, w);
        assert forall y: nat {:trigger Between(t, f, y, w)} :: Between(t, f, y, w) ==> y == w;
        assert NoLater(t, semi, w, w);
      }
    }
  }

  /** Two answers for the same block agree, however much compression happened in between. */
  lemma AnswerIsUnique(g: Graph, t: Tree, semi: seq<nat>, r: nat, m: nat, m': nat, x: nat)
    requires IsDfsTree(g, t) && IsMinimum(t, semi, r, m, x) && IsMinimum(t, semi, r, m', x)
    ensures semi[m] == semi[m'] && (m == r <==> m' == r)
  {
    assert m == r || Between(t, r, m, x);
    assert m' == r || Between(t, r, m', x);
  }

  /**
   The answer is a linked block, not the root, unless the root has already recorded a
   semidominator earlier than those of all linked blocks on the path.
   */
  lemma RootWinsIff(g: Graph, t: Tree, semi: seq<nat>, r: nat, m: nat, x: nat)
    requires IsDfsTree(g, t) && |semi| == |t.dfn| && IsMinimum(t, semi, r, m, x)
    ensures m == r <==> forall y: nat :: Between(t, r, y, x) ==> Earlier(t, semi, r, y)
  {
    if m != r {
      assert Between(t, r, m, x);
    }
  }

  /**
   A root can win: blocks 0 -> 1 -> 2 -> 1, while block 1 is being processed
   and has already recorded block 0, a query of block 2 answers block 1.
   */
  lemma RootCanWin(m: nat)
    requires IsMinimum(LoopTree(), [0, 0, 1], 1, m, 2)
    ensures IsDfsTree(Graph([[1], [2], [1]]), LoopTree())
    ensures Forest(LoopTree(), 1, [0, 1, 1], [0, 1, 2], [0, 0, 1])
    ensures IsRoot(LoopTree(), 1, 1, 2)
    ensures m == 1
  {
    var g, t := Graph([[1], [2], [1]]), LoopTree();
    assert t.dfn == [0, 1, 2] && t.father == [0, 0, 1] && t.last == [3, 3, 3];
    LoopTreeIsDfs();
    hide IsDfsTree, LoopTree;
    assert Entry(t, 1, [0, 1, 1], [0, 1, 2], [0, 0, 1], 2) by {
      assert forall y: nat :: Between(t, 1, y, 2) ==> y == 2;
    }
    assert Between(t, 1, 2, 2);
  }

  ghost function LoopTree(): Tree {
    Tree([0, 1, 2], [0, 0, 1], [3, 3, 3])
  }

  lemma LoopTreeIsDfs()
    ensures IsDfsTree(Graph([[1], [2], [1]]), LoopTree())
  {
    var g, t := Graph([[1], [2], [1]]), LoopTree();
    var succs := [[1], [2], [1]];
    assert g.succs == succs && succs[0] == [1] && succs[1] == [2] && succs[2] == [1];
    assert Edge(g, 0, 1) && Edge(g, 1, 2);
    assert forall u: nat, v: nat :: Edge(g, u, v) ==> (u == 0 && v == 1) || (u == 1 && v == 2) || (u == 2 && v == 1);
    assert |t.dfn| == |t.father| == |t.last| == |g.succs| == 3 && ValidGraph(g);
    assert t.dfn[0] == 0 && t.dfn[1] == 1 && t.dfn[2] == 2 && t.last[0] == t.last[1] == t.last[2] == 3;
    assert t.father[1] == 0 && t.father[2] == 1;
    hide LoopTree, Edge, ValidGraph;
  }
}
