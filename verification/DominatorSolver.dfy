/**
 The Lengauer-Tarjan pass over its own arrays: adjacency chains threaded through
 one growing edge vector, a recursive depth-first numbering, the link-eval forest
 with path compression, and the buckets of vertices waiting for their dominator.
 */
module DominatorSolver {
  import opened Digraph
  import opened Semidominators
  import opened LinkForest
  import opened Buckets

  /** One cell of a singly linked chain of vertices; -1 ends the chain. */
  datatype EdgeCell = EdgeCell(succ: nat, nextEdge: int)

  ghost predicate WellChained(edges: seq<EdgeCell>) {
    forall j :: 0 <= j < |edges| ==> -1 <= edges[j].nextEdge < j
  }

  /** The vertices on the chain that starts at cell `i`. */
  ghost function Chain(edges: seq<EdgeCell>, i: int): set<nat>
    requires WellChained(edges) && -1 <= i < |edges|
    decreases i
  {
    if i == -1 then {} else {edges[i].succ} + Chain(edges, edges[i].nextEdge)
  }

  lemma ChainGrows(edges: seq<EdgeCell>, more: seq<EdgeCell>, i: int)
    requires WellChained(edges) && WellChained(edges + more) && -1 <= i < |edges|
    ensures Chain(edges + more, i) == Chain(edges, i)
    decreases i
  {
    if i != -1 {
      ChainGrows(edges, more, edges[i].nextEdge);
    }
  }

  /** Every head points into the edge vector. */
  ghost predicate Heads(edges: seq<EdgeCell>, heads: seq<int>) {
    WellChained(edges) && forall v :: 0 <= v < |heads| ==> -1 <= heads[v] < |edges|
  }

  /** The chains started by `heads` hold exactly the edges of `g` seen so far. */
  ghost predicate ChainsAre(edges: seq<EdgeCell>, heads: seq<int>, content: seq<set<nat>>) {
    && Heads(edges, heads)
    && |heads| == |content|
    && forall v :: 0 <= v < |heads| ==> Chain(edges, heads[v]) == content[v]
  }

  lemma PushCell(edges: seq<EdgeCell>, heads: seq<int>, content: seq<set<nat>>, v: nat, w: nat)
    requires ChainsAre(edges, heads, content) && v < |heads|
    ensures ChainsAre(edges + [EdgeCell(w, heads[v])], heads[v := |edges|], content[v := content[v] + {w}])
  {
    var edges', heads' := edges + [EdgeCell(w, heads[v])], heads[v := |edges|];
    forall u | 0 <= u < |heads|
      ensures Chain(edges', heads'[u]) == content[v := content[v] + {w}][u]
    {
      ChainGrows(edges, [EdgeCell(w, heads[v])], heads[u]);
    }
  }

  lemma KeepChains(edges: seq<EdgeCell>, more: seq<EdgeCell>, heads: seq<int>, content: seq<set<nat>>)
    requires ChainsAre(edges, heads, content) && WellChained(edges + more)
    ensures ChainsAre(edges + more, heads, content)
  {
    forall u | 0 <= u < |heads|
      ensures Chain(edges + more, heads[u]) == content[u]
    {
      ChainGrows(edges, more, heads[u]);
    }
  }

  /** The edge from `u` to `v` is among those read before predecessor `k` of block `b`. */
  ghost predicate Scanned(preds: seq<seq<nat>>, b: nat, k: nat, u: nat, v: nat) {
    v < |preds| && ((v < b && u in preds[v]) || (v == b && k <= |preds[b]| && u in preds[b][..k]))
  }

  /** The two families of chains hold the successors and the predecessors of every block of `g`. */
  ghost predicate GraphChains(g: Graph, edges: seq<EdgeCell>, graph: seq<int>, graphInv: seq<int>) {
    && ValidGraph(g)
    && |graph| == |graphInv| == |g.succs|
    && Heads(edges, graph)
    && Heads(edges, graphInv)
    && (forall u: nat, v: nat {:trigger Edge(g, u, v)} :: u < |graph| && v < |graph| ==> (Edge(g, u, v) <==> v in Chain(edges, graph[u])))
    && (forall u: nat, v: nat {:trigger Edge(g, u, v)} :: u < |graph| && v < |graph| ==> (Edge(g, u, v) <==> u in Chain(edges, graphInv[v])))
    && (forall v: nat, w: nat {:trigger w in Chain(edges, graph[v])} :: v < |graph| && w in Chain(edges, graph[v]) ==> w < |graph|)
    && (forall v: nat, w: nat {:trigger w in Chain(edges, graphInv[v])} :: v < |graph| && w in Chain(edges, graphInv[v]) ==> w < |graph|)
  }

  lemma ScannedAll(g: Graph, preds: seq<seq<nat>>, edges: seq<EdgeCell>, graph: seq<int>, graphInv: seq<int>, outs: seq<set<nat>>, ins: seq<set<nat>>)
    requires ValidGraph(g) && |g.succs| == |preds| == |graph| == |graphInv|
    requires ChainsAre(edges, graph, outs) && ChainsAre(edges, graphInv, ins)
    requires forall b: nat, p: nat {:trigger p in preds[b]} :: b < |preds| ==> (p in preds[b] <==> Edge(g, p, b))
    requires forall u: nat, v: nat :: u < |preds| && v < |preds| ==> (v in outs[u] <==> Scanned(preds, |preds|, 0, u, v))
    requires forall u: nat, v: nat :: u < |preds| && v < |preds| ==> (u in ins[v] <==> Scanned(preds, |preds|, 0, u, v))
    requires forall u: nat, v: nat :: u < |preds| && (v in outs[u] || v in ins[u]) ==> v < |preds|
    ensures GraphChains(g, edges, graph, graphInv)
  {
    forall u: nat, v: nat {:trigger Edge(g, u, v)} | u < |graph| && v < |graph|
      ensures Edge(g, u, v) <==> v in Chain(edges, graph[u])
      ensures Edge(g, u, v) <==> u in Chain(edges, graphInv[v])
    {
      assert u in preds[v] <==> Scanned(preds, |preds|, 0, u, v);
    }
  }

  /** Cells pushed later do not disturb the graph. */
  lemma KeepGraph(g: Graph, edges: seq<EdgeCell>, cell: EdgeCell, graph: seq<int>, graphInv: seq<int>)
    requires GraphChains(g, edges, graph, graphInv) && -1 <= cell.nextEdge < |edges|
    ensures GraphChains(g, edges + [cell], graph, graphInv)
  {
    forall v: nat | v < |graph|
      ensures Chain(edges + [cell], graph[v]) == Chain(edges, graph[v])
      ensures Chain(edges + [cell], graphInv[v]) == Chain(edges, graphInv[v])
    {
      ChainGrows(edges, [cell], graph[v]);
      ChainGrows(edges, [cell], graphInv[v]);
    }
  }

  lemma NextRow(preds: seq<seq<nat>>, b: nat)
    requires b < |preds|
    ensures forall u: nat, v: nat :: Scanned(preds, b, |preds[b]|, u, v) == Scanned(preds, b + 1, 0, u, v)
  {
    assert preds[b][..|preds[b]|] == preds[b];
  }

  lemma NextCell(preds: seq<seq<nat>>, b: nat, k: nat)
    requires b < |preds| && k < |preds[b]|
    ensures forall u: nat, v: nat :: Scanned(preds, b, k + 1, u, v) == (Scanned(preds, b, k, u, v) || (u == preds[b][k] && v == b))
  {
    var more := preds[b][..k + 1];
    assert more == preds[b][..k] + [preds[b][k]];
    forall u: nat, v: nat
      ensures Scanned(preds, b, k + 1, u, v) == (Scanned(preds, b, k, u, v) || (u == preds[b][k] && v == b))
    {
      assert u in more <==> u in preds[b][..k] || u == preds[b][k];
    }
  }

  // ---- the depth-first numbering ----

  /** `nodeAt` and `dfn` are inverse to each other; -1 marks a vertex not visited yet. */
  ghost predicate Numbering(dfn: seq<int>, nodeAt: seq<nat>) {
    && (forall i :: 0 <= i < |nodeAt| ==> nodeAt[i] < |dfn| && dfn[nodeAt[i]] == i)
    && (forall v :: 0 <= v < |dfn| ==> dfn[v] == -1 || (0 <= dfn[v] < |nodeAt| && nodeAt[dfn[v]] == v))
  }

  /** The visit of `v` is over: its interval is closed under successors and tree parents. */
  ghost predicate Finished(g: Graph, dfn: seq<int>, father: seq<nat>, last: seq<nat>, nodeAt: seq<nat>, v: nat) {
    && v < |dfn| == |father| == |last| == |g.succs|
    && 0 <= dfn[v] < last[v] <= |nodeAt|
    && (forall w: nat :: Edge(g, v, w) ==> w < |dfn| && 0 <= dfn[w] < last[v])
    && (forall j {:trigger nodeAt[j]} :: dfn[v] < j < last[v] ==>
        nodeAt[j] < |dfn| && father[nodeAt[j]] < |dfn| && dfn[v] <= dfn[father[nodeAt[j]]])
  }

  /** `v` hangs below its tree parent, which was visited at `lo` or later. */
  ghost predicate Attached(g: Graph, dfn: seq<int>, father: seq<nat>, lo: nat, v: nat) {
    && v < |dfn| == |father| == |g.succs|
    && father[v] < |dfn|
    && Edge(g, father[v], v)
    && lo <= dfn[father[v]] < dfn[v]
  }

  /** While `nodeAt[lo]` is being visited: everything visited after it is finished and hangs in its subtree. */
  ghost predicate Visiting(g: Graph, dfn: seq<int>, father: seq<nat>, last: seq<nat>, nodeAt: seq<nat>, lo: nat) {
    && |dfn| == |father| == |last| == |g.succs|
    && Numbering(dfn, nodeAt)
    && lo < |nodeAt|
    && forall i {:trigger nodeAt[i]} :: lo < i < |nodeAt| ==>
        && Finished(g, dfn, father, last, nodeAt, nodeAt[i])
        && Attached(g, dfn, father, lo, nodeAt[i])
        && (father[nodeAt[i]] == nodeAt[lo] || last[nodeAt[i]] <= last[father[nodeAt[i]]])
  }

  /** The visit of `nodeAt[lo]` is over and `nodeAt[lo..]` is its subtree. */
  ghost predicate Visited(g: Graph, dfn: seq<int>, father: seq<nat>, last: seq<nat>, nodeAt: seq<nat>, lo: nat) {
    && Visiting(g, dfn, father, last, nodeAt, lo)
    && Finished(g, dfn, father, last, nodeAt, nodeAt[lo])
    && last[nodeAt[lo]] == |nodeAt|
  }

  /** What was visited before stays as it was. */
  ghost predicate Extends(dfn: seq<int>, father: seq<nat>, last: seq<nat>, nodeAt: seq<nat>,
                          dfn': seq<int>, father': seq<nat>, last': seq<nat>, nodeAt': seq<nat>) {
    && |dfn| == |father| == |last| == |dfn'| == |father'| == |last'|
    && nodeAt <= nodeAt'
    && forall v :: 0 <= v < |dfn| && dfn[v] != -1 ==> dfn'[v] == dfn[v] && father'[v] == father[v] && last'[v] == last[v]
  }

  lemma ExtendsTransitive(dfn: seq<int>, father: seq<nat>, last: seq<nat>, nodeAt: seq<nat>,
                          dfn': seq<int>, father': seq<nat>, last': seq<nat>, nodeAt': seq<nat>,
                          dfn'': seq<int>, father'': seq<nat>, last'': seq<nat>, nodeAt'': seq<nat>)
    requires Extends(dfn, father, last, nodeAt, dfn', father', last', nodeAt')
    requires Extends(dfn', father', last', nodeAt', dfn'', father'', last'', nodeAt'')
    ensures Extends(dfn, father, last, nodeAt, dfn'', father'', last'', nodeAt'')
  {
  }

  lemma ExtendsKeeps(dfn: seq<int>, father: seq<nat>, last: seq<nat>, nodeAt: seq<nat>,
                     dfn': seq<int>, father': seq<nat>, last': seq<nat>, nodeAt': seq<nat>)
    requires Extends(dfn, father, last, nodeAt, dfn', father', last', nodeAt')
    ensures |dfn'| == |dfn| && |last'| == |last| && nodeAt <= nodeAt'
    ensures forall v :: 0 <= v < |dfn| && dfn[v] != -1 ==> dfn'[v] == dfn[v]
  {
  }

  lemma VisitingInside(g: Graph, dfn: seq<int>, father: seq<nat>, last: seq<nat>, nodeAt: seq<nat>, lo: nat)
    requires Visiting(g, dfn, father, last, nodeAt, lo)
    ensures lo < |nodeAt| && |dfn| == |father| == |last| == |g.succs|
    ensures Extends(dfn, father, last, nodeAt, dfn, father, last, nodeAt)
  {
  }

  lemma FinishedStays(g: Graph, dfn: seq<int>, father: seq<nat>, last: seq<nat>, nodeAt: seq<nat>,
                      dfn': seq<int>, father': seq<nat>, last': seq<nat>, nodeAt': seq<nat>, v: nat)
    requires Numbering(dfn, nodeAt) && Finished(g, dfn, father, last, nodeAt, v)
    requires Extends(dfn, father, last, nodeAt, dfn', father', last', nodeAt')
    requires forall i {:trigger nodeAt[i]} :: dfn[v] < i < last[v] ==> Attached(g, dfn, father, 0, nodeAt[i])
    ensures Finished(g, dfn', father', last', nodeAt', v)
  {
    forall j | dfn'[v] < j < last'[v]
      ensures nodeAt'[j] < |dfn'| && father'[nodeAt'[j]] < |dfn'| && dfn'[v] <= dfn'[father'[nodeAt'[j]]]
    {
      assert nodeAt'[j] == nodeAt[j];
      assert Attached(g, dfn, father, 0, nodeAt[j]);
    }
  }

  /** A finished child visit becomes part of the visit of its tree parent. */
  lemma AbsorbChild(g: Graph, dfn: seq<int>, father: seq<nat>, last: seq<nat>, nodeAt: seq<nat>,
                    dfn': seq<int>, father': seq<nat>, last': seq<nat>, nodeAt': seq<nat>, lo: nat)
    requires Visiting(g, dfn, father, last, nodeAt, lo)
    requires Extends(dfn, father, last, nodeAt, dfn', father', last', nodeAt')
    requires |nodeAt| < |nodeAt'| && Visited(g, dfn', father', last', nodeAt', |nodeAt|)
    requires father'[nodeAt'[|nodeAt|]] == nodeAt[lo] && Edge(g, nodeAt[lo], nodeAt'[|nodeAt|])
    ensures Visiting(g, dfn', father', last', nodeAt', lo)
  {
    var c := |nodeAt|;
    forall i | lo < i < |nodeAt'|
      ensures Finished(g, dfn', father', last', nodeAt', nodeAt'[i])
      ensures Attached(g, dfn', father', lo, nodeAt'[i])
      ensures father'[nodeAt'[i]] == nodeAt'[lo] || last'[nodeAt'[i]] <= last'[father'[nodeAt'[i]]]
    {
      var v := nodeAt'[i];
      if i < c {
        assert v == nodeAt[i];
        assert Attached(g, dfn, father, lo, v);
        FinishedStays(g, dfn, father, last, nodeAt, dfn', father', last', nodeAt', v);
      } else if i > c {
        assert Attached(g, dfn', father', c, v);
      }
    }
  }

  /** Once all successors are visited, recording the visit count ends the visit. */
  lemma FinishVisit(g: Graph, dfn: seq<int>, father: seq<nat>, last: seq<nat>, nodeAt: seq<nat>, lo: nat)
    requires ValidGraph(g) && Visiting(g, dfn, father, last, nodeAt, lo)
    requires forall w: nat :: Edge(g, nodeAt[lo], w) ==> w < |dfn| && dfn[w] != -1
    ensures Visited(g, dfn, father, last[nodeAt[lo] := |nodeAt|], nodeAt, lo)
  {
    var k, last' := nodeAt[lo], last[nodeAt[lo] := |nodeAt|];
    forall i | lo < i < |nodeAt|
      ensures Finished(g, dfn, father, last', nodeAt, nodeAt[i])
      ensures last'[nodeAt[i]] <= last'[father[nodeAt[i]]]
    {
      assert Finished(g, dfn, father, last, nodeAt, nodeAt[i]);
      assert Attached(g, dfn, father, lo, nodeAt[i]);
    }
    forall j {:trigger nodeAt[j]} | lo < j < |nodeAt|
      ensures father[nodeAt[j]] < |dfn| && lo <= dfn[father[nodeAt[j]]]
    {
      assert Attached(g, dfn, father, lo, nodeAt[j]);
    }
  }

  lemma RefatherUnvisited(g: Graph, dfn: seq<int>, father: seq<nat>, last: seq<nat>, nodeAt: seq<nat>, lo: nat, v: nat, k: nat)
    requires Visiting(g, dfn, father, last, nodeAt, lo) && v < |dfn| && dfn[v] == -1
    ensures Visiting(g, dfn, father[v := k], last, nodeAt, lo)
  {
    forall i {:trigger nodeAt[i]} | lo < i < |nodeAt|
      ensures Finished(g, dfn, father[v := k], last, nodeAt, nodeAt[i])
    {
      assert Finished(g, dfn, father, last, nodeAt, nodeAt[i]);
    }
  }

  /**
   The buckets after `bound`: a processed block either waits in the bucket of its
   semidominator, for a child visited no later than `next`, or is settled.
   */
  ghost predicate Bucketed(t: Tree, next: int, bound: int, semi: seq<nat>, idom: seq<nat>, edges: seq<EdgeCell>, heads: seq<int>) {
    && |semi| == |idom| == |heads| == |t.dfn|
    && (|idom| > 0 ==> idom[0] == 0)
    && Heads(edges, heads)
    && (forall s: nat, w: nat {:trigger w in Chain(edges, heads[s])} :: s < |heads| && w in Chain(edges, heads[s]) ==>
        InBucket(t, next, bound, semi, s, w))
    && (forall w: nat {:trigger semi[w]} {:trigger idom[w]} :: w < |t.dfn| && t.dfn[w] > bound ==>
        && semi[w] < |heads|
        && (w in Chain(edges, heads[semi[w]]) || Settled(t, bound, semi, idom[w], w)))
  }

  ghost predicate InBucket(t: Tree, next: int, bound: int, semi: seq<nat>, s: nat, w: nat) {
    && 0 < w < |semi| == |t.dfn|
    && t.dfn[w] > bound
    && semi[w] == s
    && Waiting(t, next, s, w)
  }

  /** The block just processed goes into the bucket of its semidominator. */
  lemma PushBlock(g: Graph, t: Tree, semi: seq<nat>, semi': seq<nat>, idom: seq<nat>, edges: seq<EdgeCell>, heads: seq<int>, b: nat)
    requires IsDfsTree(g, t) && 0 < b < |t.dfn| && t.dfn[b] > 0
    requires Bucketed(t, t.dfn[b], t.dfn[b], semi, idom, edges, heads)
    requires SemisDone(g, t, t.dfn[b], semi) && SemisDone(g, t, t.dfn[b] - 1, semi')
    requires semi' == semi[b := semi'[b]] && semi'[b] < |heads|
    ensures Bucketed(t, t.dfn[b], t.dfn[b] - 1, semi', idom, edges + [EdgeCell(b, heads[semi'[b]])], heads[semi'[b] := |edges|])
  {
    hide IsDfsTree, Settled, InBucket;
    var s0 := semi'[b];
    var edges', heads' := edges + [EdgeCell(b, heads[s0])], heads[s0 := |edges|];
    PushedChains(edges, heads, b, s0);
    forall s: nat, w: nat {:trigger w in Chain(edges', heads'[s])} | s < |heads'| && w in Chain(edges', heads'[s])
      ensures InBucket(t, t.dfn[b], t.dfn[b] - 1, semi', s, w)
    {
      if w in Chain(edges, heads[s]) {
        StaysInBucket(t, t.dfn[b], t.dfn[b], semi, semi', s, w, b);
      } else {
        NewInBucket(g, t, semi', b);
      }
    }
    forall w: nat {:trigger semi'[w]} | w < |t.dfn| && t.dfn[w] > t.dfn[b] - 1
      ensures semi'[w] < |heads'| && (w in Chain(edges', heads'[semi'[w]]) || Settled(t, t.dfn[b] - 1, semi', idom[w], w))
    {
      if w != b {
        SameNumber(g, t, w, b);
        assert semi[w] == semi'[w] < |heads|;
        if w !in Chain(edges, heads[semi[w]]) {
          SettledStays(g, t, t.dfn[b], semi, idom[w], w, b, semi'[b]);
          SettledWeaker(t, t.dfn[b], semi', idom[w], w);
        }
      }
    }
  }

  lemma PushedChains(edges: seq<EdgeCell>, heads: seq<int>, b: nat, s0: nat)
    requires Heads(edges, heads) && s0 < |heads|
    ensures var edges', heads' := edges + [EdgeCell(b, heads[s0])], heads[s0 := |edges|];
            Heads(edges', heads') && forall s: nat :: s < |heads| ==> Chain(edges', heads'[s]) == Chain(edges, heads[s]) + if s == s0 then {b} else {}
  {
    var edges', heads' := edges + [EdgeCell(b, heads[s0])], heads[s0 := |edges|];
    forall s: nat | s < |heads|
      ensures Chain(edges', heads'[s]) == Chain(edges, heads[s]) + if s == s0 then {b} else {}
    {
      ChainGrows(edges, [EdgeCell(b, heads[s0])], heads[s]);
    }
  }

  lemma StaysInBucket(t: Tree, next: int, bound: int, semi: seq<nat>, semi': seq<nat>, s: nat, w: nat, b: nat)
    requires InBucket(t, next, bound, semi, s, w) && b < |semi| == |semi'| && semi' == semi[b := semi'[b]] && b < |t.dfn| && t.dfn[b] <= bound
    ensures InBucket(t, next, bound - 1, semi', s, w)
  {
    hide Waiting;
  }

  lemma NewInBucket(g: Graph, t: Tree, semi: seq<nat>, b: nat)
    requires IsDfsTree(g, t) && 0 < b < |t.dfn| && SemisDone(g, t, t.dfn[b] - 1, semi)
    ensures InBucket(t, t.dfn[b], t.dfn[b] - 1, semi, semi[b], b)
  {
    hide IsDfsTree, Waiting;
    assert IsSemi(g, t, semi[b], b);
    DfsSize(g, t);
    SemiIsAncestor(g, t, semi[b], b);
    NewcomerWaits(g, t, semi[b], b);
  }

  lemma DfsSize(g: Graph, t: Tree)
    requires IsDfsTree(g, t)
    ensures |t.dfn| == |t.father| == |t.last| == |g.succs|
  {
  }

  /** What the next round may rely on when it empties the bucket of `f`, the tree parent of `b`. */
  lemma BucketMembers(g: Graph, t: Tree, semi: seq<nat>, idom: seq<nat>, edges: seq<EdgeCell>, heads: seq<int>, b: nat, f: nat)
    requires IsDfsTree(g, t) && 0 < b < |t.dfn| && f == t.father[b]
    requires Bucketed(t, t.dfn[b], t.dfn[b] - 1, semi, idom, edges, heads) && SemisDone(g, t, t.dfn[b] - 1, semi)
    ensures f < |semi| && semi[f] == f && Heads(edges, heads)
    ensures forall w: nat :: w in Chain(edges, heads[f]) ==> InBucket(t, t.dfn[b], t.dfn[b] - 1, semi, f, w) && w < |semi|
  {
  }

  /** When all blocks are processed, every one of them is settled. */
  lemma AllSettled(g: Graph, t: Tree, semi: seq<nat>, idom: seq<nat>, edges: seq<EdgeCell>, heads: seq<int>)
    requires IsDfsTree(g, t) && Bucketed(t, 0, 0, semi, idom, edges, heads)
    ensures idom[0] == 0
    ensures forall w: nat :: 0 < w < |t.dfn| ==> t.dfn[w] > 0 && Settled(t, 0, semi, idom[w], w)
  {
    forall w: nat | 0 < w < |t.dfn|
      ensures t.dfn[w] > 0 && Settled(t, 0, semi, idom[w], w)
    {
      SameNumber(g, t, w, 0);
      if w in Chain(edges, heads[semi[w]]) {
        assert InBucket(t, 0, 0, semi, semi[w], w);
        NothingWaits(g, t, semi[w], w);
      }
    }
  }

  lemma SettledBelow(g: Graph, t: Tree, semi: seq<nat>, d: nat, w: nat)
    requires IsDfsTree(g, t) && Settled(t, 0, semi, d, w) && d != semi[w]
    ensures 0 < d < |t.dfn| && t.dfn[d] < t.dfn[w]
  {
    assert t.dfn[0] == 0;
  }

  lemma SameNumber(g: Graph, t: Tree, w: nat, b: nat)
    requires IsDfsTree(g, t) && w < |t.dfn| && b < |t.dfn| && w != b
    ensures t.dfn[w] != t.dfn[b]
  {
  }

  lemma SettledWeaker(t: Tree, bound: int, semi: seq<nat>, d: nat, w: nat)
    requires Settled(t, bound, semi, d, w)
    ensures Settled(t, bound - 1, semi, d, w)
  {
  }

  lemma NewcomerWaits(g: Graph, t: Tree, s: nat, b: nat)
    requires IsDfsTree(g, t) && Anc(t, s, b) && s != b
    ensures Waiting(t, t.dfn[b], s, b)
  {
    var c := ChildExists(g, t, s, b);
  }

  /** Emptying the bucket of the tree parent of `b`, once its members are settled, moves the bound past `b`. */
  lemma EmptyBucket(g: Graph, t: Tree, semi: seq<nat>, idom: seq<nat>, idom': seq<nat>, edges: seq<EdgeCell>, heads: seq<int>, b: nat)
    requires IsDfsTree(g, t) && 0 < b < |t.dfn| && t.dfn[b] > 0 && |idom'| == |idom|
    requires Bucketed(t, t.dfn[b], t.dfn[b] - 1, semi, idom, edges, heads) && t.father[b] < |heads|
    requires forall w: nat :: w < |idom| && w !in Chain(edges, heads[t.father[b]]) ==> idom'[w] == idom[w]
    requires forall w: nat :: w in Chain(edges, heads[t.father[b]]) ==> w < |idom| && Settled(t, t.dfn[b] - 1, semi, idom'[w], w)
    ensures Bucketed(t, t.dfn[b] - 1, t.dfn[b] - 1, semi, idom', edges, heads[t.father[b] := -1])
  {
    var f := t.father[b];
    hide IsDfsTree, Settled, Waiting;
    var heads' := heads[f := -1];
    forall s: nat, w: nat {:trigger w in Chain(edges, heads'[s])} | s < |heads'| && w in Chain(edges, heads'[s])
      ensures InBucket(t, t.dfn[b] - 1, t.dfn[b] - 1, semi, s, w)
    {
      assert s != f && w in Chain(edges, heads[s]);
      assert InBucket(t, t.dfn[b], t.dfn[b] - 1, semi, s, w);
      StillWaits(g, t, b, s, w);
    }
    forall w: nat {:trigger semi[w]} | w < |t.dfn| && t.dfn[w] > t.dfn[b] - 1
      ensures semi[w] < |heads'| && (w in Chain(edges, heads'[semi[w]]) || Settled(t, t.dfn[b] - 1, semi, idom'[w], w))
    {
      assert w in Chain(edges, heads[semi[w]]) || Settled(t, t.dfn[b] - 1, semi, idom[w], w);
      if w in Chain(edges, heads[f]) {
        assert Settled(t, t.dfn[b] - 1, semi, idom'[w], w);
      }
    }
  }

  lemma MinimumInRange(t: Tree, semi: seq<nat>, r: nat, m: nat, x: nat)
    requires IsMinimum(t, semi, r, m, x)
    ensures m < |semi| == |t.dfn| && semi[m] < |t.dfn|
  {
  }

  lemma SemiInRange(t: Tree, bound: int, unionSet: seq<nat>, minNode: seq<nat>, semi: seq<nat>, w: nat)
    requires Forest(t, bound, unionSet, minNode, semi) && w < |t.dfn|
    ensures |semi| == |t.dfn| && semi[w] < |t.dfn|
  {
  }

  /** While the predecessors of `w` are scanned: `semi[w]` is no later than anything the ones not in `pending` offer. */
  ghost predicate Scanning(g: Graph, t: Tree, semi: seq<nat>, semi0: seq<nat>, w: nat, pending: set<nat>) {
    && w < |semi| == |t.dfn|
    && semi[w] < |t.dfn|
    && semi[w := w] == semi0
    && Candidate(g, t, semi[w], w)
    && t.dfn[semi[w]] <= t.dfn[w]
    && forall v: nat :: v < |g.succs| && Edge(g, v, w) ==> v in pending || Covers(t, semi, semi[w], w, v)
  }

  lemma StartScan(g: Graph, t: Tree, semi: seq<nat>, w: nat, preds: set<nat>)
    requires IsDfsTree(g, t) && w < |t.dfn| && SemisDone(g, t, t.dfn[w], semi)
    requires forall v: nat :: v < |g.succs| && Edge(g, v, w) ==> v in preds
    ensures Scanning(g, t, semi, semi, w, preds)
  {
    hide IsDfsTree;
    assert semi[w] == w && semi[w := w] == semi;
  }

  lemma ScanReady(g: Graph, t: Tree, semi: seq<nat>, semi0: seq<nat>, w: nat, pending: set<nat>)
    requires Scanning(g, t, semi, semi0, w, pending)
    ensures w < |semi| == |t.dfn| && semi[w] < |t.dfn| && semi[w := w] == semi0 && Candidate(g, t, semi[w], w) && t.dfn[semi[w]] <= t.dfn[w]
  {
  }

  lemma ScanNext(g: Graph, t: Tree, semi: seq<nat>, semi': seq<nat>, semi0: seq<nat>, w: nat, v: nat, pending: set<nat>)
    requires Scanning(g, t, semi, semi0, w, {v} + pending) && |semi'| == |semi| && semi' == semi[w := semi'[w]]
    requires semi'[w] < |t.dfn| && Candidate(g, t, semi'[w], w) && t.dfn[semi'[w]] <= t.dfn[semi[w]] && Covers(t, semi', semi'[w], w, v)
    ensures Scanning(g, t, semi', semi0, w, pending)
  {
    hide Covers, Candidate;
    KeepCovered(g, t, semi, semi', w);
  }

  lemma ScanEnds(g: Graph, t: Tree, semi: seq<nat>, semi0: seq<nat>, w: nat)
    requires IsDfsTree(g, t) && 0 < w < |t.dfn| && Scanning(g, t, semi, semi0, w, {}) && SemisDone(g, t, t.dfn[w], semi0)
    ensures w < |semi| == |semi0| && semi == semi0[w := semi[w]] && SemisDone(g, t, t.dfn[w] - 1, semi)
  {
    DfsSize(g, t);
    hide Covers, Candidate, SemisDone, IsDfsTree;
    ScanIsComplete(g, t, semi, w);
    SemisAdvance(g, t, semi, w);
  }

  /** The chain of `u` lists its successors. */
  lemma ChainOfSuccs(g: Graph, edges: seq<EdgeCell>, graph: seq<int>, graphInv: seq<int>, u: nat)
    requires GraphChains(g, edges, graph, graphInv) && u < |graph|
    ensures WellChained(edges) && -1 <= graph[u] < |edges|
    ensures forall v: nat :: Edge(g, u, v) ==> v < |graph| && v in Chain(edges, graph[u])
    ensures forall v: nat :: v in Chain(edges, graph[u]) ==> v < |graph| && Edge(g, u, v)
  {
  }

  /** The chain of `w` lists its predecessors. */
  lemma ChainOfPreds(g: Graph, edges: seq<EdgeCell>, graph: seq<int>, graphInv: seq<int>, w: nat)
    requires GraphChains(g, edges, graph, graphInv) && w < |graph|
    ensures WellChained(edges) && -1 <= graphInv[w] < |edges|
    ensures forall v: nat :: v in Chain(edges, graphInv[w]) <==> v < |graph| && Edge(g, v, w)
  {
  }

  /** The tree recorded by a finished numbering. */
  ghost function TreeOf(dfn: seq<int>, father: seq<nat>, last: seq<nat>): Tree
    requires forall v :: 0 <= v < |dfn| ==> dfn[v] >= 0
  {
    Tree(seq(|dfn|, v requires 0 <= v < |dfn| => dfn[v]), father, last)
  }

  /** Everything reachable from the entry is numbered. */
  lemma AllNumbered(g: Graph, dfn: seq<int>, father: seq<nat>, last: seq<nat>, nodeAt: seq<nat>, p: seq<nat>)
    requires ValidGraph(g) && Visited(g, dfn, father, last, nodeAt, 0) && nodeAt[0] == 0 && IsPath(g, p) && p[0] == 0
    ensures dfn[p[|p| - 1]] >= 0
  {
    if |p| > 1 {
      var u := p[|p| - 2];
      Subpath(g, p, 0, |p| - 1);
      AllNumbered(g, dfn, father, last, nodeAt, p[0..|p| - 1]);
      assert nodeAt[dfn[u]] == u;
      assert Finished(g, dfn, father, last, nodeAt, nodeAt[dfn[u]]);
      assert Edge(g, u, p[|p| - 1]);
    }
  }

  /** A complete numbering, vertex by vertex. */
  ghost predicate Complete(g: Graph, dfn: seq<int>, father: seq<nat>, last: seq<nat>, nodeAt: seq<nat>) {
    && |dfn| == |father| == |last| == |g.succs|
    && forall v: nat :: v < |dfn| ==> CompleteAt(g, dfn, father, last, nodeAt, v)
  }

  ghost predicate CompleteAt(g: Graph, dfn: seq<int>, father: seq<nat>, last: seq<nat>, nodeAt: seq<nat>, v: nat) {
    && v < |dfn| == |father| == |last| == |g.succs|
    && 0 <= dfn[v] < |nodeAt|
    && nodeAt[dfn[v]] == v
    && Finished(g, dfn, father, last, nodeAt, v)
    && (v != 0 ==> Attached(g, dfn, father, 0, v) && last[v] <= last[father[v]])
  }

  lemma VisitedIsComplete(g: Graph, dfn: seq<int>, father: seq<nat>, last: seq<nat>, nodeAt: seq<nat>)
    requires ValidGraph(g) && AllReachable(g) && Visited(g, dfn, father, last, nodeAt, 0) && nodeAt[0] == 0
    ensures dfn[0] == 0 && Complete(g, dfn, father, last, nodeAt)
  {
    assert dfn[nodeAt[0]] == 0;
    forall v: nat | v < |dfn|
      ensures CompleteAt(g, dfn, father, last, nodeAt, v)
    {
      assert Reachable(g, v);
      var p :| PathBetween(g, p, 0, v);
      AllNumbered(g, dfn, father, last, nodeAt, p);
      assert v == nodeAt[dfn[v]];
      if v != 0 {
        assert Attached(g, dfn, father, 0, nodeAt[dfn[v]]);
        FatherNests(g, dfn, father, last, nodeAt, v);
      }
    }
  }

  lemma FatherNests(g: Graph, dfn: seq<int>, father: seq<nat>, last: seq<nat>, nodeAt: seq<nat>, v: nat)
    requires Visited(g, dfn, father, last, nodeAt, 0) && v < |dfn| && 0 < dfn[v]
    ensures Attached(g, dfn, father, 0, v) && last[v] <= last[father[v]]
  {
    assert v == nodeAt[dfn[v]];
    assert Finished(g, dfn, father, last, nodeAt, nodeAt[dfn[v]]);
  }

  lemma CompletePair(g: Graph, dfn: seq<int>, father: seq<nat>, last: seq<nat>, nodeAt: seq<nat>, u: nat, v: nat)
    requires Complete(g, dfn, father, last, nodeAt) && u < |dfn| && v < |dfn|
    ensures 0 <= dfn[u] < last[u]
    ensures dfn[u] == dfn[v] ==> u == v
    ensures u != 0 ==> Attached(g, dfn, father, 0, u) && last[u] <= last[father[u]]
    ensures Edge(g, u, v) ==> dfn[v] < last[u]
    ensures dfn[u] < dfn[v] < last[u] ==> father[v] < |dfn| && dfn[u] <= dfn[father[v]]
  {
    assert CompleteAt(g, dfn, father, last, nodeAt, u) && CompleteAt(g, dfn, father, last, nodeAt, v);
    assert nodeAt[dfn[v]] == v;
  }

  ghost predicate Records(t: Tree, dfn: seq<int>, father: seq<nat>, last: seq<nat>) {
    && t.father == father
    && t.last == last
    && |t.dfn| == |dfn| == |father| == |last|
    && forall v: nat {:trigger t.dfn[v]} :: v < |dfn| ==> t.dfn[v] == dfn[v]
  }

  lemma RecordsNumbers(g: Graph, dfn: seq<int>, father: seq<nat>, last: seq<nat>, nodeAt: seq<nat>, t: Tree)
    requires Complete(g, dfn, father, last, nodeAt) && Records(t, dfn, father, last)
    ensures forall v: nat {:trigger t.last[v]} :: v < |t.dfn| ==> t.dfn[v] < t.last[v]
    ensures forall u: nat, v: nat :: u < |t.dfn| && v < |t.dfn| && t.dfn[u] == t.dfn[v] ==> u == v
  {
    hide Complete;
    forall v: nat {:trigger t.last[v]} | v < |t.dfn|
      ensures t.dfn[v] < t.last[v]
    {
      CompletePair(g, dfn, father, last, nodeAt, v, v);
    }
    forall u: nat, v: nat | u < |t.dfn| && v < |t.dfn| && t.dfn[u] == t.dfn[v]
      ensures u == v
    {
      CompletePair(g, dfn, father, last, nodeAt, u, v);
    }
  }

  lemma RecordsFathers(g: Graph, dfn: seq<int>, father: seq<nat>, last: seq<nat>, nodeAt: seq<nat>, t: Tree)
    requires Complete(g, dfn, father, last, nodeAt) && Records(t, dfn, father, last)
    ensures forall v: nat {:trigger t.father[v]} :: 0 < v < |t.dfn| ==>
              t.father[v] < |t.dfn| && Edge(g, t.father[v], v) && t.dfn[t.father[v]] < t.dfn[v] && t.last[v] <= t.last[t.father[v]]
  {
    hide Complete;
    forall v: nat {:trigger t.father[v]} | 0 < v < |t.dfn|
      ensures t.father[v] < |t.dfn| && Edge(g, t.father[v], v) && t.dfn[t.father[v]] < t.dfn[v] && t.last[v] <= t.last[t.father[v]]
    {
      CompletePair(g, dfn, father, last, nodeAt, v, v);
    }
  }

  lemma RecordsIntervals(g: Graph, dfn: seq<int>, father: seq<nat>, last: seq<nat>, nodeAt: seq<nat>, t: Tree)
    requires Complete(g, dfn, father, last, nodeAt) && Records(t, dfn, father, last)
    requires ValidGraph(g)
    ensures forall u: nat, v: nat {:trigger Edge(g, u, v)} :: u < |t.dfn| && Edge(g, u, v) ==> t.dfn[v] < t.last[u]
    ensures forall u: nat, v: nat {:trigger t.last[u], t.father[v]} :: u < |t.dfn| && v < |t.dfn| && t.dfn[u] < t.dfn[v] < t.last[u] ==>
              t.father[v] < |t.dfn| && t.dfn[u] <= t.dfn[t.father[v]]
  {
    forall u: nat, v: nat {:trigger Edge(g, u, v)} | u < |t.dfn| && Edge(g, u, v)
      ensures t.dfn[v] < t.last[u]
    {
      CompletePair(g, dfn, father, last, nodeAt, u, v);
    }
    hide Complete;
    forall u: nat, v: nat {:trigger t.last[u], t.father[v]} | u < |t.dfn| && v < |t.dfn| && t.dfn[u] < t.dfn[v] < t.last[u]
      ensures t.father[v] < |t.dfn| && t.dfn[u] <= t.dfn[t.father[v]]
    {
      CompletePair(g, dfn, father, last, nodeAt, u, v);
    }
  }

  lemma CompleteIsTree(g: Graph, dfn: seq<int>, father: seq<nat>, last: seq<nat>, nodeAt: seq<nat>)
    requires ValidGraph(g) && Complete(g, dfn, father, last, nodeAt) && dfn[0] == 0
    ensures forall v :: 0 <= v < |dfn| ==> dfn[v] >= 0
    ensures IsDfsTree(g, TreeOf(dfn, father, last))
  {
    assert |dfn| == |father| == |last| == |g.succs|;
    hide Complete;
    forall v: nat {:trigger dfn[v]} | v < |dfn|
      ensures dfn[v] >= 0
    {
      CompletePair(g, dfn, father, last, nodeAt, v, v);
    }
    var t := TreeOf(dfn, father, last);
    RecordsNumbers(g, dfn, father, last, nodeAt, t);
    RecordsFathers(g, dfn, father, last, nodeAt, t);
    RecordsIntervals(g, dfn, father, last, nodeAt, t);
  }

  class Solver {
    const n: nat
    const graph: array<int>
    const graphInv: array<int>
    const semiTree: array<int>
    const dfn: array<int>
    const father: array<nat>
    const unionSet: array<nat>
    const semi: array<nat>
    const minNode: array<nat>
    const idom_: array<nat>
    var edges: seq<EdgeCell>
    var nodeAt: seq<nat>
    // the visit count at the end of each vertex's visit
    ghost var last: seq<nat>

    ghost predicate Shape()
    {
      && n > 0
      && graph.Length == graphInv.Length == semiTree.Length == dfn.Length == n
      && father.Length == unionSet.Length == semi.Length == minNode.Length == idom_.Length == n
      && graph != graphInv && graph != semiTree && graph != dfn && graphInv != semiTree && graphInv != dfn && semiTree != dfn
      && father != unionSet && father != semi && father != minNode && father != idom_
      && unionSet != semi && unionSet != minNode && unionSet != idom_
      && semi != minNode && semi != idom_ && minNode != idom_
    }

    constructor (n: nat)
      requires n > 0
      ensures Shape() && this.n == n && edges == [] && nodeAt == [] && |last| == n
      ensures fresh(graph) && fresh(graphInv) && fresh(semiTree) && fresh(dfn) && fresh(father)
      ensures fresh(unionSet) && fresh(semi) && fresh(minNode) && fresh(idom_)
      ensures forall i :: 0 <= i < n ==> graph[i] == graphInv[i] == semiTree[i] == dfn[i] == -1
      ensures forall i :: 0 <= i < n ==> idom_[i] == 0
    {
      this.n := n;
      graph := new int[n](_ => -1);
      graphInv := new int[n](_ => -1);
      semiTree := new int[n](_ => -1);
      dfn := new int[n](_ => -1);
      father := new nat[n](_ => 0);
      unionSet := new nat[n](_ => 0);
      semi := new nat[n](_ => 0);
      minNode := new nat[n](_ => 0);
      idom_ := new nat[n](_ => 0);
      edges := [];
      nodeAt := [];
      last := seq(n, _ => 0);
    }

    /** Both adjacency chains are those of `g`. */
    ghost predicate HoldsGraph(g: Graph)
      reads this`edges, graph, graphInv
    {
      Shape() && |g.succs| == n && GraphChains(g, edges, graph[..], graphInv[..])
    }

    /** Thread every edge into the chain of its source and into the chain of its target. */
    method BuildGraph(ghost g: Graph, preds: seq<seq<nat>>)
      requires Shape() && ValidGraph(g) && |g.succs| == |preds| == n && edges == []
      requires forall i :: 0 <= i < n ==> graph[i] == graphInv[i] == -1
      requires forall b: nat, p: nat {:trigger p in preds[b]} :: b < n ==> (p in preds[b] <==> Edge(g, p, b))
      modifies this`edges, graph, graphInv
      ensures HoldsGraph(g)
    {
      ghost var outs := seq(n, _ => {});
      ghost var ins := seq(n, _ => {});
      var block := 0;
      while block < n
        invariant block <= n && |outs| == |ins| == n
        invariant ChainsAre(edges, graph[..], outs) && ChainsAre(edges, graphInv[..], ins)
        invariant forall u: nat, v: nat :: u < n && v < n ==> (v in outs[u] <==> Scanned(preds, block, 0, u, v))
        invariant forall u: nat, v: nat :: u < n && v < n ==> (u in ins[v] <==> Scanned(preds, block, 0, u, v))
        invariant forall u: nat, v: nat :: u < n && (v in outs[u] || v in ins[u]) ==> v < n
      {
        forall k | 0 <= k < |preds[block]|
          ensures preds[block][k] < n
        {
          assert preds[block][k] in preds[block] && Edge(g, preds[block][k], block);
        }
        outs, ins := ThreadBlock(preds, block, outs, ins);
        NextRow(preds, block);
        block := block + 1;
      }
      hide GraphChains;
      ScannedAll(g, preds, edges, graph[..], graphInv[..], outs, ins);
    }

    /** The edges into one block. */
    method ThreadBlock(preds: seq<seq<nat>>, block: nat, ghost outs0: seq<set<nat>>, ghost ins0: seq<set<nat>>)
      returns (ghost outs: seq<set<nat>>, ghost ins: seq<set<nat>>)
      requires Shape() && |preds| == n && block < n && |outs0| == |ins0| == n
      requires forall k :: 0 <= k < |preds[block]| ==> preds[block][k] < n
      requires ChainsAre(edges, graph[..], outs0) && ChainsAre(edges, graphInv[..], ins0)
      requires forall u: nat, v: nat :: u < n && v < n ==> (v in outs0[u] <==> Scanned(preds, block, 0, u, v))
      requires forall u: nat, v: nat :: u < n && v < n ==> (u in ins0[v] <==> Scanned(preds, block, 0, u, v))
      requires forall u: nat, v: nat :: u < n && (v in outs0[u] || v in ins0[u]) ==> v < n
      modifies this`edges, graph, graphInv
      ensures |outs| == |ins| == n
      ensures ChainsAre(edges, graph[..], outs) && ChainsAre(edges, graphInv[..], ins)
      ensures forall u: nat, v: nat :: u < n && v < n ==> (v in outs[u] <==> Scanned(preds, block, |preds[block]|, u, v))
      ensures forall u: nat, v: nat :: u < n && v < n ==> (u in ins[v] <==> Scanned(preds, block, |preds[block]|, u, v))
      ensures forall u: nat, v: nat :: u < n && (v in outs[u] || v in ins[u]) ==> v < n
    {
      hide ChainsAre, Scanned;
      outs, ins := outs0, ins0;
      var k := 0;
      while k < |preds[block]|
        invariant k <= |preds[block]| && |outs| == |ins| == n
        invariant ChainsAre(edges, graph[..], outs) && ChainsAre(edges, graphInv[..], ins)
        invariant forall u: nat, v: nat :: u < n && v < n ==> (v in outs[u] <==> Scanned(preds, block, k, u, v))
        invariant forall u: nat, v: nat :: u < n && v < n ==> (u in ins[v] <==> Scanned(preds, block, k, u, v))
        invariant forall u: nat, v: nat :: u < n && (v in outs[u] || v in ins[u]) ==> v < n
      {
        var from: nat, to: nat := preds[block][k], block;
        NextCell(preds, block, k);
        AddEdge(from, to, outs, ins);
        outs, ins := outs[from := outs[from] + {to}], ins[to := ins[to] + {from}];
        k := k + 1;
      }
    }

    method AddEdge(from: nat, to: nat, ghost outs: seq<set<nat>>, ghost ins: seq<set<nat>>)
      requires Shape() && from < n && to < n
      requires ChainsAre(edges, graph[..], outs) && ChainsAre(edges, graphInv[..], ins)
      modifies this`edges, graph, graphInv
      ensures ChainsAre(edges, graph[..], outs[from := outs[from] + {to}])
      ensures ChainsAre(edges, graphInv[..], ins[to := ins[to] + {from}])
    {
      PushCell(edges, graph[..], outs, from, to);
      KeepChains(edges, [EdgeCell(to, graph[from])], graphInv[..], ins);
      edges := edges + [EdgeCell(to, graph[from])];
      graph[from] := |edges| - 1;
      assert graph[..] == old(graph[..])[from := |edges| - 1];
      assert ChainsAre(edges, graphInv[..], ins);
      PushCell(edges, graphInv[..], ins, to, from);
      KeepChains(edges, [EdgeCell(from, graphInv[to])], graph[..], outs[from := outs[from] + {to}]);
      edges := edges + [EdgeCell(from, graphInv[to])];
      graphInv[to] := |edges| - 1;
      assert graphInv[..] == old(graphInv[..])[to := |edges| - 1];
    }

    ghost function Unvisited(): set<nat>
      reads this, dfn
    {
      set v: nat | v < n && v < dfn.Length && dfn[v] == -1
    }

    /** Number `k` and everything reachable from it that is not numbered yet. */
    method Tarjan(ghost g: Graph, k: nat)
      requires HoldsGraph(g) && k < n && Numbering(dfn[..], nodeAt) && dfn[k] == -1 && |last| == n
      modifies this`nodeAt, this`last, dfn, father
      ensures Extends(old(dfn[..]), old(father[..]), old(last), old(nodeAt), dfn[..], father[..], last, nodeAt)
      ensures old(|nodeAt|) < |nodeAt| && nodeAt[old(|nodeAt|)] == k && father[k] == old(father[k])
      ensures Visited(g, dfn[..], father[..], last, nodeAt, old(|nodeAt|))
      decreases Unvisited(), 0
    {
      ghost var lo := |nodeAt|;
      EnterVisit(g, k);
      ghost var dfn0, father0, last0, nodeAt0 := dfn[..], father[..], last, nodeAt;
      VisitSuccessors(g, k, lo);
      FinishVisit(g, dfn[..], father[..], last, nodeAt, lo);
      last := last[k := |nodeAt|];
    }

    method VisitSuccessors(ghost g: Graph, k: nat, ghost lo: nat)
      requires HoldsGraph(g) && k < n && |last| == n
      requires Visiting(g, dfn[..], father[..], last, nodeAt, lo) && nodeAt[lo] == k
      modifies this`nodeAt, this`last, dfn, father
      ensures Extends(old(dfn[..]), old(father[..]), old(last), old(nodeAt), dfn[..], father[..], last, nodeAt)
      ensures Visiting(g, dfn[..], father[..], last, nodeAt, lo)
      ensures forall w: nat :: Edge(g, k, w) ==> w < n && dfn[w] != -1
      decreases Unvisited(), 2
    {
      ghost var dfn0, father0, last0, nodeAt0 := dfn[..], father[..], last, nodeAt;
      ChainOfSuccs(g, edges, graph[..], graphInv[..], k);
      VisitingInside(g, dfn0, father0, last0, nodeAt0, lo);
      hide Visiting, Extends, GraphChains;
      var i := graph[k];
      while i != -1
        invariant -1 <= i < |edges| && |last| == n
        invariant lo < |nodeAt| && nodeAt[lo] == k
        invariant Extends(dfn0, father0, last0, nodeAt0, dfn[..], father[..], last, nodeAt)
        invariant Visiting(g, dfn[..], father[..], last, nodeAt, lo)
        invariant Unvisited() <= old(Unvisited())
        invariant forall w: nat :: Edge(g, k, w) ==> w < n && (dfn[w] != -1 || w in Chain(edges, i))
        invariant forall w :: w in Chain(edges, i) ==> w < n && Edge(g, k, w)
        decreases i
      {
        ghost var dfn1, father1, last1, nodeAt1 := dfn[..], father[..], last, nodeAt;
        VisitIfNew(g, k, edges[i].succ, lo);
        ExtendsTransitive(dfn0, father0, last0, nodeAt0, dfn1, father1, last1, nodeAt1, dfn[..], father[..], last, nodeAt);
        ExtendsKeeps(dfn1, father1, last1, nodeAt1, dfn[..], father[..], last, nodeAt);
        i := edges[i].nextEdge;
      }
    }

    method EnterVisit(ghost g: Graph, k: nat)
      requires HoldsGraph(g) && k < n && Numbering(dfn[..], nodeAt) && dfn[k] == -1 && |last| == n
      modifies this`nodeAt, dfn
      ensures Unvisited() < old(Unvisited())
      ensures dfn[..] == old(dfn[..])[k := old(|nodeAt|)] && nodeAt == old(nodeAt) + [k]
      ensures Visiting(g, dfn[..], father[..], last, nodeAt, old(|nodeAt|))
    {
      assert k in Unvisited();
      dfn[k] := |nodeAt|;
      nodeAt := nodeAt + [k];
    }

    method VisitIfNew(ghost g: Graph, k: nat, succ: nat, ghost lo: nat)
      requires HoldsGraph(g) && k < n && succ < n && Edge(g, k, succ) && |last| == n
      requires Visiting(g, dfn[..], father[..], last, nodeAt, lo) && nodeAt[lo] == k
      modifies this`nodeAt, this`last, dfn, father
      ensures Extends(old(dfn[..]), old(father[..]), old(last), old(nodeAt), dfn[..], father[..], last, nodeAt)
      ensures dfn[succ] != -1 && Unvisited() <= old(Unvisited())
      ensures Visiting(g, dfn[..], father[..], last, nodeAt, lo)
      decreases Unvisited(), 1
    {
      if dfn[succ] != -1 { return; }
      father[succ] := k;
      ghost var dfn0, father0, last0, nodeAt0 := dfn[..], father[..], last, nodeAt;
      assert Visiting(g, dfn0, father0, last0, nodeAt0, lo) by {
        RefatherUnvisited(g, dfn0, old(father[..]), last0, nodeAt0, lo, succ, k);
        assert father0 == old(father[..])[succ := k];
      }
      Tarjan(g, succ);
      AbsorbChild(g, dfn0, father0, last0, nodeAt0, dfn[..], father[..], last, nodeAt, lo);
    }

    // ---- semidominators and buckets ----

    /** The numbering is finished and is that of the tree `t` of `g`. */
    ghost predicate Numbered(g: Graph, t: Tree)
      reads this`edges, this`nodeAt, graph, graphInv, dfn, father
    {
      && HoldsGraph(g)
      && IsDfsTree(g, t)
      && DfnOf(t)
      && father[..] == t.father
      && Numbering(dfn[..], nodeAt)
    }

    ghost predicate DfnOf(t: Tree)
      reads dfn
    {
      && Shape()
      && |t.dfn| == n
      && forall v: nat :: v < n ==> dfn[v] == t.dfn[v]
    }

    /** The forest arrays abbreviate `t` with the blocks after `bound` linked. */
    ghost predicate Linked(t: Tree, bound: int)
      reads unionSet, minNode, semi
    {
      Forest(t, bound, unionSet[..], minNode[..], semi[..])
    }

    /** Find the root of `k`, leave the minimum in `minNode[k]`, and compress the path. */
    method Query(ghost g: Graph, ghost t: Tree, ghost bound: int, k: nat) returns (result: nat)
      requires IsDfsTree(g, t) && DfnOf(t) && Linked(t, bound) && k < n
      modifies unionSet, minNode
      ensures Linked(t, bound)
      ensures IsRoot(t, bound, result, k) && IsMinimum(t, semi[..], result, minNode[k], k)
      ensures forall x: nat :: x < n && t.dfn[x] > t.dfn[k] ==> unionSet[x] == old(unionSet[x]) && minNode[x] == old(minNode[x])
      ensures t.dfn[k] > bound ==> unionSet[k] == result
      decreases t.dfn[k]
    {
      assert Entry(t, bound, unionSet[..], minNode[..], semi[..], k);
      if k == unionSet[k] {
        return k;
      }
      result := Query(g, t, bound, unionSet[k]);
      Absorb(g, t, bound, k, result);
    }

    /** Combine the answer for the link of `k` with what `k` knows, and link `k` to the root. */
    method Absorb(ghost g: Graph, ghost t: Tree, ghost bound: int, k: nat, result: nat)
      requires IsDfsTree(g, t) && DfnOf(t) && Linked(t, bound) && k < n && t.dfn[k] > bound && unionSet[k] < n
      requires IsRoot(t, bound, result, unionSet[k]) && IsMinimum(t, semi[..], result, minNode[unionSet[k]], unionSet[k])
      modifies unionSet, minNode
      ensures Linked(t, bound)
      ensures IsRoot(t, bound, result, k) && IsMinimum(t, semi[..], result, minNode[k], k)
      ensures forall x: nat :: x < n && x != k ==> unionSet[x] == old(unionSet[x]) && minNode[x] == old(minNode[x])
      ensures unionSet[k] == result
    {
      hide IsDfsTree;
      ghost var a, m := unionSet[k], minNode[k];
      assert Entry(t, bound, unionSet[..], minNode[..], semi[..], k);
      Compress(g, t, bound, semi[..], a, m, minNode[a], result, k);
      ghost var best := if t.dfn[semi[minNode[a]]] < t.dfn[semi[m]] then minNode[a] else m;
      RewriteEntry(g, t, bound, unionSet[..], minNode[..], semi[..], k, result, best);
      ghost var unionSet1, minNode1 := unionSet[..][k := result], minNode[..][k := best];
      if dfn[semi[minNode[unionSet[k]]]] < dfn[semi[minNode[k]]] {
        minNode[k] := minNode[unionSet[k]];
      }
      unionSet[k] := result;
      assert unionSet[..] == unionSet1 && minNode[..] == minNode1;
    }

    /** Lower `semi[w]` to what predecessor `v` offers. */
    method ScanPred(ghost g: Graph, ghost t: Tree, w: nat, v: nat)
      requires IsDfsTree(g, t) && DfnOf(t) && 0 < w < n && v < n && Edge(g, v, w) && Linked(t, t.dfn[w])
      requires SemisDone(g, t, t.dfn[w], semi[..][w := w]) && Candidate(g, t, semi[w], w) && t.dfn[semi[w]] <= t.dfn[w]
      modifies unionSet, minNode, semi
      ensures Linked(t, t.dfn[w])
      ensures semi[..] == old(semi[..])[w := semi[w]]
      ensures semi[w] < n && Candidate(g, t, semi[w], w) && t.dfn[semi[w]] <= t.dfn[old(semi[w])]
      ensures Covers(t, semi[..], semi[w], w, v)
    {
      hide IsDfsTree, SemisDone, IsRoot, IsMinimum, Candidate, Covers, Forest;
      SemiInRange(t, t.dfn[w], unionSet[..], minNode[..], semi[..], w);
      var root := Query(g, t, t.dfn[w], v);
      MinimumInRange(t, semi[..], root, minNode[v], v);
      OfferedByPred(g, t, semi[..], w, v, root, minNode[v]);
      if dfn[semi[minNode[v]]] < dfn[semi[w]] {
        LowerSemi(g, t, w, v, semi[minNode[v]]);
      }
    }

    method LowerSemi(ghost g: Graph, ghost t: Tree, w: nat, ghost v: nat, s: nat)
      requires IsDfsTree(g, t) && DfnOf(t) && w < n && s < n && Linked(t, t.dfn[w])
      requires t.dfn[s] <= t.dfn[semi[w]] && Covers(t, semi[..], s, w, v)
      modifies semi
      ensures Linked(t, t.dfn[w]) && semi[..] == old(semi[..])[w := s]
      ensures Covers(t, semi[..], s, w, v)
    {
      hide IsDfsTree;
      LowerRootSemi(g, t, t.dfn[w], unionSet[..], minNode[..], semi[..], w, s);
      CoversMore(t, semi[..], s, w, v, s);
      ghost var semi1 := semi[..][w := s];
      semi[w] := s;
      assert semi[..] == semi1;
    }

    /** Scan all predecessors of `w`; afterwards `semi[w]` is its semidominator. */
    method ComputeSemi(ghost g: Graph, ghost t: Tree, w: nat)
      requires HoldsGraph(g) && IsDfsTree(g, t) && DfnOf(t) && 0 < w < n
      requires Linked(t, t.dfn[w]) && SemisDone(g, t, t.dfn[w], semi[..])
      modifies unionSet, minNode, semi
      ensures Linked(t, t.dfn[w])
      ensures SemisDone(g, t, t.dfn[w] - 1, semi[..])
      ensures semi[..] == old(semi[..])[w := semi[w]]
    {
      hide IsDfsTree, SemisDone, Forest, Covers, Candidate, GraphChains, Scanning;
      ghost var semi0 := semi[..];
      ChainOfPreds(g, edges, graph[..], graphInv[..], w);
      StartScan(g, t, semi0, w, Chain(edges, graphInv[w]));
      var i := graphInv[w];
      while i != -1
        invariant -1 <= i < |edges|
        invariant Linked(t, t.dfn[w]) && Scanning(g, t, semi[..], semi0, w, Chain(edges, i))
        invariant forall v :: v in Chain(edges, i) ==> v < n && Edge(g, v, w)
        decreases i
      {
        var succ := edges[i].succ;
        ghost var semi1, rest := semi[..], Chain(edges, edges[i].nextEdge);
        ScanReady(g, t, semi1, semi0, w, Chain(edges, i));
        ScanPred(g, t, w, succ);
        ScanNext(g, t, semi1, semi[..], semi0, w, succ, rest);
        i := edges[i].nextEdge;
      }
      ScanEnds(g, t, semi[..], semi0, w);
    }

    ghost predicate Buckets(t: Tree, next: int, bound: int)
      reads this`edges, semi, idom_, semiTree
    {
      Bucketed(t, next, bound, semi[..], idom_[..], edges, semiTree[..])
    }

    /** Query every block waiting below the tree parent `f` of `b`, then forget the bucket. */
    method DrainBucket(ghost g: Graph, ghost t: Tree, ghost b: nat, f: nat)
      requires IsDfsTree(g, t) && DfnOf(t) && 0 < b < n && f < n && f == t.father[b] && t.dfn[b] > 0
      requires Linked(t, t.dfn[b] - 1) && SemisDone(g, t, t.dfn[b] - 1, semi[..]) && Buckets(t, t.dfn[b], t.dfn[b] - 1)
      modifies unionSet, minNode, idom_, semiTree
      ensures Linked(t, t.dfn[b] - 1) && Buckets(t, t.dfn[b] - 1, t.dfn[b] - 1)
    {
      hide IsDfsTree, Settled, Waiting, Forest, SemisDone, Bucketed, InBucket;
      ghost var idom0, semiTree0 := idom_[..], semiTree[..];
      BucketMembers(g, t, semi[..], idom0, edges, semiTree0, b, f);
      assert semi[..][f] == f;
      var i := semiTree[f];
      while i != -1
        invariant -1 <= i < |edges|
        invariant Linked(t, t.dfn[b] - 1) && semiTree[..] == semiTree0
        invariant forall w: nat :: w in Chain(edges, i) ==> w in Chain(edges, semiTree0[f])
        invariant forall w: nat :: w < n && w !in Chain(edges, semiTree0[f]) ==> idom_[w] == idom0[w]
        invariant forall w: nat :: w in Chain(edges, semiTree0[f]) ==>
                    w < n && (w in Chain(edges, i) || Settled(t, t.dfn[b] - 1, semi[..], idom_[w], w))
        decreases i
      {
        var succ := edges[i].succ;
        assert succ in Chain(edges, semiTree0[f]);
        SettleOne(g, t, b, f, succ);
        i := edges[i].nextEdge;
      }
      EmptyBucket(g, t, semi[..], idom0, idom_[..], edges, semiTree0, b);
      semiTree[f] := -1;
      assert semiTree[..] == semiTree0[f := -1];
    }

    method SettleOne(ghost g: Graph, ghost t: Tree, ghost b: nat, f: nat, succ: nat)
      requires IsDfsTree(g, t) && DfnOf(t) && 0 < b < n && f < n && f == t.father[b] && succ < n && t.dfn[b] > 0
      requires Linked(t, t.dfn[b] - 1) && semi[f] == f
      requires InBucket(t, t.dfn[b], t.dfn[b] - 1, semi[..], f, succ)
      modifies unionSet, minNode, idom_
      ensures Linked(t, t.dfn[b] - 1)
      ensures forall w: nat :: w < n && w != succ ==> idom_[w] == old(idom_[w])
      ensures Settled(t, t.dfn[b] - 1, semi[..], idom_[succ], succ)
    {
      hide IsDfsTree, Settled, Waiting;
      var root := Query(g, t, t.dfn[b] - 1, succ);
      SettleFromQuery(g, t, semi[..], b, succ, root, minNode[succ]);
      idom_[succ] := if f == semi[minNode[succ]] then f else minNode[succ];
    }

    method LinkBlock(ghost g: Graph, ghost t: Tree, b: nat)
      requires IsDfsTree(g, t) && DfnOf(t) && 0 < b < n && father[b] == t.father[b] && Linked(t, t.dfn[b])
      modifies unionSet
      ensures Linked(t, t.dfn[b] - 1)
    {
      LinkNext(g, t, t.dfn[b], unionSet[..], minNode[..], semi[..], b);
      ghost var unionSet1 := unionSet[..][b := t.father[b]];
      unionSet[b] := father[b];
      assert unionSet[..] == unionSet1;
    }

    method PushToBucket(ghost g: Graph, ghost t: Tree, b: nat, ghost semi0: seq<nat>)
      requires HoldsGraph(g) && IsDfsTree(g, t) && DfnOf(t) && 0 < b < n && t.dfn[b] > 0
      requires Bucketed(t, t.dfn[b], t.dfn[b], semi0, idom_[..], edges, semiTree[..])
      requires SemisDone(g, t, t.dfn[b], semi0) && SemisDone(g, t, t.dfn[b] - 1, semi[..])
      requires semi[..] == semi0[b := semi[b]] && semi[b] < n
      modifies this`edges, semiTree
      ensures HoldsGraph(g) && Buckets(t, t.dfn[b], t.dfn[b] - 1)
    {
      assert Heads(edges, semiTree[..]);
      PushBlock(g, t, semi0, semi[..], idom_[..], edges, semiTree[..], b);
      KeepGraph(g, edges, EdgeCell(b, semiTree[semi[b]]), graph[..], graphInv[..]);
      hide IsDfsTree, SemisDone, Bucketed, GraphChains;
      ghost var semiTree1 := semiTree[..][semi[b] := |edges|];
      edges := edges + [EdgeCell(b, semiTree[semi[b]])];
      semiTree[semi[b]] := |edges| - 1;
      assert semiTree[..] == semiTree1;
    }

    lemma OthersLater(g: Graph, t: Tree, w: nat)
      requires IsDfsTree(g, t) && w < |t.dfn|
      ensures forall v: nat :: v < |t.dfn| && v != w ==> t.dfn[v] != t.dfn[w]
    {
    }

    lemma NextBlock(g: Graph, t: Tree, i: nat)
      requires Numbered(g, t) && 0 < i < |nodeAt|
      ensures 0 < nodeAt[i] < n && t.dfn[nodeAt[i]] == i
    {
      assert dfn[nodeAt[i]] == i;
      assert t.dfn[0] == 0;
    }

    /** One round of the main loop: semidominator, link, bucket, and the bucket of the parent. */
    method ProcessBlock(ghost g: Graph, ghost t: Tree, b: nat)
      requires Numbered(g, t) && 0 < b < n && t.dfn[b] > 0
      requires Linked(t, t.dfn[b]) && SemisDone(g, t, t.dfn[b], semi[..]) && Buckets(t, t.dfn[b], t.dfn[b])
      modifies this`edges, unionSet, minNode, semi, idom_, semiTree
      ensures Numbered(g, t)
      ensures Linked(t, t.dfn[b] - 1) && SemisDone(g, t, t.dfn[b] - 1, semi[..]) && Buckets(t, t.dfn[b] - 1, t.dfn[b] - 1)
    {
      assert t.father[b] < n;
      hide IsDfsTree, SemisDone, Bucketed, GraphChains;
      ghost var semi0 := semi[..];
      ComputeSemi(g, t, b);
      assert semi[b] < n;
      LinkBlock(g, t, b);
      PushToBucket(g, t, b, semi0);
      DrainBucket(g, t, b, father[b]);
    }

    /** Every block is its own root, minimum and semidominator, and nothing is processed yet. */
    method InitForest(ghost g: Graph, ghost t: Tree)
      requires IsDfsTree(g, t) && DfnOf(t) && nodeAt != [] && Numbering(dfn[..], nodeAt)
      requires HoldsGraph(g) && (forall i :: 0 <= i < n ==> semiTree[i] == -1) && idom_[0] == 0
      modifies unionSet, minNode, semi
      ensures Linked(t, |nodeAt| - 1) && SemisDone(g, t, |nodeAt| - 1, semi[..]) && Buckets(t, |nodeAt| - 1, |nodeAt| - 1)
    {
      var i := 0;
      while i < n
        invariant i <= n
        invariant forall v :: 0 <= v < i ==> semi[v] == unionSet[v] == minNode[v] == v
      {
        semi[i], unionSet[i], minNode[i] := i, i, i;
        i := i + 1;
      }
      forall v: nat | v < n
        ensures t.dfn[v] <= |nodeAt| - 1
      {
        assert dfn[v] == t.dfn[v];
      }
    }

    /** The loop that finalises the dominators in visit order. */
    method Finalize(ghost g: Graph, ghost t: Tree)
      requires Numbered(g, t) && Linked(t, 0) && SemisDone(g, t, 0, semi[..]) && Buckets(t, 0, 0)
      modifies idom_
      ensures idom_[0] == 0
      ensures forall w: nat :: 0 < w < n ==> IsIdom(g, idom_[w], w)
    {
      hide IsDfsTree, Settled, SemisDone, Bucketed, IsIdom, GraphChains, Forest;
      AllSettled(g, t, semi[..], idom_[..], edges, semiTree[..]);
      var i := 1;
      while i < |nodeAt|
        invariant 1 <= i && idom_[0] == 0
        invariant forall w: nat :: 0 < w < n && t.dfn[w] >= i ==> Settled(t, 0, semi[..], idom_[w], w)
        invariant forall w: nat :: 0 < w < n && t.dfn[w] < i ==> IsIdom(g, idom_[w], w)
      {
        NextBlock(g, t, i);
        FinalizeOne(g, t, nodeAt[i], i);
        OthersLater(g, t, nodeAt[i]);
        i := i + 1;
      }
      forall w: nat | 0 < w < n
        ensures IsIdom(g, idom_[w], w)
      {
        assert t.dfn[w] == dfn[w] < |nodeAt|;
      }
    }

    method FinalizeOne(ghost g: Graph, ghost t: Tree, w: nat, ghost i: nat)
      requires IsDfsTree(g, t) && DfnOf(t) && SemisDone(g, t, 0, semi[..]) && 0 < w < n && t.dfn[w] == i
      requires Settled(t, 0, semi[..], idom_[w], w)
      requires forall v: nat :: 0 < v < n && t.dfn[v] < i ==> IsIdom(g, idom_[v], v)
      modifies idom_
      ensures forall v: nat :: v < n && v != w ==> idom_[v] == old(idom_[v])
      ensures IsIdom(g, idom_[w], w)
    {
      ghost var d := idom_[w];
      if idom_[w] != semi[w] {
        SettledBelow(g, t, semi[..], d, w);
        FinalStep(g, t, semi[..], d, w, idom_[d]);
        idom_[w] := idom_[idom_[w]];
      } else {
        FinalStep(g, t, semi[..], d, w, 0);
      }
    }

    /** All passes in order. */
    method Solve(ghost g: Graph, preds: seq<seq<nat>>)
      requires Shape() && ValidGraph(g) && AllReachable(g) && |g.succs| == |preds| == n && edges == [] && nodeAt == [] && |last| == n
      requires forall i :: 0 <= i < n ==> graph[i] == graphInv[i] == semiTree[i] == dfn[i] == -1
      requires forall i :: 0 <= i < n ==> idom_[i] == 0
      requires forall b: nat, p: nat {:trigger p in preds[b]} :: b < n ==> (p in preds[b] <==> Edge(g, p, b))
      modifies this, graph, graphInv, semiTree, dfn, father, unionSet, semi, minNode, idom_
      ensures idom_[0] == 0
      ensures forall w: nat :: 0 < w < n ==> IsIdom(g, idom_[w], w)
    {
      hide IsDfsTree, Settled, SemisDone, Bucketed, IsIdom, GraphChains, Forest, AllReachable;
      BuildGraph(g, preds);
      Tarjan(g, 0);
      VisitedIsComplete(g, dfn[..], father[..], last, nodeAt);
      CompleteIsTree(g, dfn[..], father[..], last, nodeAt);
      MainLoop(g, TreeOf(dfn[..], father[..], last));
    }

    /** Process the blocks in reverse visit order, then finalise their dominators. */
    method MainLoop(ghost g: Graph, ghost t: Tree)
      requires Numbered(g, t) && nodeAt != [] && (forall i :: 0 <= i < n ==> semiTree[i] == -1) && idom_[0] == 0
      modifies this`edges, unionSet, minNode, semi, idom_, semiTree
      ensures idom_[0] == 0
      ensures forall w: nat :: 0 < w < n ==> IsIdom(g, idom_[w], w)
    {
      hide IsDfsTree, Settled, SemisDone, Bucketed, IsIdom, GraphChains, Forest;
      InitForest(g, t);
      var i := |nodeAt| - 1;
      while i > 0
        invariant 0 <= i < |nodeAt|
        invariant Numbered(g, t) && Linked(t, i) && SemisDone(g, t, i, semi[..]) && Buckets(t, i, i)
      {
        NextBlock(g, t, i);
        ProcessBlock(g, t, nodeAt[i]);
        i := i - 1;
      }
      Finalize(g, t);
    }
  }

  /** The immediate dominator of every block, the entry standing for itself. */
  method ComputeDominators(ghost g: Graph, preds: seq<seq<nat>>) returns (idom: seq<nat>)
    requires ValidGraph(g) && AllReachable(g) && |preds| == |g.succs|
    requires forall b: nat, p: nat {:trigger p in preds[b]} :: b < |preds| ==> (p in preds[b] <==> Edge(g, p, b))
    ensures |idom| == |g.succs| && idom[0] == 0
    ensures forall b: nat :: 0 < b < |idom| ==> IsIdom(g, idom[b], b)
  {
    var solver := new Solver(|preds|);
    solver.Solve(g, preds);
    idom := solver.idom_[..];
  }
}
