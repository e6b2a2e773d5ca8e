/**
 The second half of memory-to-register promotion: which definition of a promoted
 variable reaches a block, collected in one pass over the blocks in depth-first
 order, and the rewriting of every load into the definition that reaches it.
 */
module ReachingDefinitions {
  import opened Digraph
  import opened DominanceFrontier
  import opened Options

  /** What an instruction means to the promoted variables; `Other` leaves them alone. */
  datatype Instr = Phi(v: nat) | Store(v: nat) | InitLoad(v: nat) | Load(v: nat) | Other

  datatype Site = Site(block: nat, index: nat)

  predicate Defines(i: Instr, v: nat) {
    (i.Phi? || i.Store? || i.InitLoad?) && i.v == v
  }

  /** The last definition of `v` in `code`, as an index. */
  function LastDef(code: seq<Instr>, v: nat): (r: Option<nat>)
    ensures r.Some? ==> r.value < |code| && Defines(code[r.value], v) && forall k :: r.value < k < |code| ==> !Defines(code[k], v)
    ensures r.None? ==> forall k :: 0 <= k < |code| ==> !Defines(code[k], v)
  {
    if code == [] then None
    else if Defines(code[|code| - 1], v) then Some(|code| - 1)
    else LastDef(code[..|code| - 1], v)
  }

  /** The last definition of `v` when control leaves the last block of the path `p`. */
  ghost function Reaching(blocks: seq<seq<Instr>>, v: nat, p: seq<nat>): Option<Site>
    requires forall i :: 0 <= i < |p| ==> p[i] < |blocks|
  {
    if p == [] then None
    else
      var b := p[|p| - 1];
      var own := LastDef(blocks[b], v);
      if own.Some? then Some(Site(b, own.value)) else Reaching(blocks, v, p[..|p| - 1])
  }

  ghost predicate ValidCode(g: Graph, blocks: seq<seq<Instr>>) {
    ValidGraph(g) && |blocks| == |g.succs|
  }

  ghost predicate DefinedIn(blocks: seq<seq<Instr>>, v: nat, b: nat) {
    b < |blocks| && LastDef(blocks[b], v).Some?
  }

  /** Definition `s` of `v` reaches the end of block `b` along some path. */
  ghost predicate LeavesBlock(g: Graph, blocks: seq<seq<Instr>>, v: nat, s: Site, b: nat)
    requires ValidCode(g, blocks)
  {
    exists p :: PathBetween(g, p, 0, b) && Reaching(blocks, v, p) == Some(s)
  }

  /** Definition `s` of `v` reaches the head of block `b` along some path. */
  ghost predicate EntersBlock(g: Graph, blocks: seq<seq<Instr>>, v: nat, s: Site, b: nat)
    requires ValidCode(g, blocks)
  {
    exists p :: PathBetween(g, p, 0, b) && |p| >= 2 && Reaching(blocks, v, p[..|p| - 1]) == Some(s)
  }

  /**
   What phi placement and the initial loads establish for `v`: the entry defines it,
   and the frontier of every block that defines it holds a phi for it.
   */
  ghost predicate PhisPlaced(g: Graph, blocks: seq<seq<Instr>>, v: nat)
    requires ValidCode(g, blocks)
  {
    && DefinedIn(blocks, v, 0)
    && forall x: nat, b: nat :: DefinedIn(blocks, v, x) && b < |blocks| && InFrontier(g, x, b) ==> Phi(v) in blocks[b]
  }

  /** Phis sit at the head of their block. */
  ghost predicate PhisFirst(blocks: seq<seq<Instr>>) {
    forall b, k, j :: 0 <= b < |blocks| && 0 <= j < k < |blocks[b]| && blocks[b][k].Phi? ==> blocks[b][j].Phi?
  }

  // ---- one definition reaches every block without a phi ----

  lemma ReachingSplit(blocks: seq<seq<Instr>>, v: nat, p: seq<nat>, q: seq<nat>)
    requires forall i :: 0 <= i < |p + q| ==> (p + q)[i] < |blocks|
    ensures forall i :: 0 <= i < |p| ==> p[i] < |blocks|
    ensures forall i :: 0 <= i < |q| ==> q[i] < |blocks|
    ensures Reaching(blocks, v, p + q) == if Reaching(blocks, v, q).Some? then Reaching(blocks, v, q) else Reaching(blocks, v, p)
  {
    assert forall i :: 0 <= i < |p| ==> p[i] == (p + q)[i];
    assert forall i :: 0 <= i < |q| ==> q[i] == (p + q)[|p| + i];
    if q == [] {
      assert p + q == p;
    } else {
      assert (p + q)[..|p + q| - 1] == p + q[..|q| - 1];
      ReachingSplit(blocks, v, p, q[..|q| - 1]);
    }
  }

  lemma NoDefNoReach(blocks: seq<seq<Instr>>, v: nat, q: seq<nat>)
    requires forall i :: 0 <= i < |q| ==> q[i] < |blocks| && !DefinedIn(blocks, v, q[i])
    ensures Reaching(blocks, v, q) == None
  {
  }

  /** Where the strict dominance of `x` ends along a path, a frontier block of `x` lies. */
  lemma FrontierOnPath(g: Graph, x: nat, q: seq<nat>) returns (j: nat)
    requires ValidGraph(g) && IsPath(g, q) && q[0] == x && |q| >= 2 && !SDom(g, x, q[|q| - 1])
    ensures 0 < j < |q| && InFrontier(g, x, q[j])
  {
    j := 1;
    DomReflexive(g, x);
    while SDom(g, x, q[j])
      invariant 0 < j < |q| && Dom(g, x, q[j - 1])
      decreases |q| - j
    {
      j := j + 1;
    }
    assert EndsAt(g, x, q[j - 1], q[j]);
  }

  /** Between the immediate dominator of a block without a phi and that block nothing is defined. */
  lemma NothingInBetween(g: Graph, blocks: seq<seq<Instr>>, v: nat, d: nat, q: seq<nat>, i: nat)
    requires ValidCode(g, blocks) && AllReachable(g) && PhisPlaced(g, blocks, v)
    requires IsPath(g, q) && q[0] == d && IsIdom(g, d, q[|q| - 1]) && d !in q[1..] && Phi(v) !in blocks[q[|q| - 1]]
    requires 0 < i < |q| - 1
    ensures !DefinedIn(blocks, v, q[i])
    decreases |q| - i
  {
    var x, b := q[i], q[|q| - 1];
    DomAlongPath(g, d, q, b);
    assert x == q[1..][i - 1];
    assert x != d;
    if DefinedIn(blocks, v, x) {
      assert !SDom(g, x, b) by {
        if SDom(g, x, b) {
          assert Reachable(g, x);
          DomAntisymmetric(g, x, d);
        }
      }
      Subpath(g, q, i, |q|);
      var j := FrontierOnPath(g, x, q[i..]);
      assert q[i..][j] == q[i + j];
      assert Phi(v) in blocks[q[i + j]];
      PhiDefines(blocks, v, q[i + j]);
      NothingInBetween(g, blocks, v, d, q, i + j);
    }
  }

  lemma PhiDefines(blocks: seq<seq<Instr>>, v: nat, b: nat)
    requires b < |blocks| && Phi(v) in blocks[b]
    ensures DefinedIn(blocks, v, b)
  {
  }

  /** The definition that arrives at a block without a phi is decided at its immediate dominator. */
  lemma DecidedAtIdom(g: Graph, blocks: seq<seq<Instr>>, v: nat, d: nat, p: seq<nat>) returns (i: nat)
    requires ValidCode(g, blocks) && AllReachable(g) && PhisPlaced(g, blocks, v)
    requires IsPath(g, p) && p[0] == 0 && IsIdom(g, d, p[|p| - 1]) && Phi(v) !in blocks[p[|p| - 1]]
    ensures i < |p| - 1 && p[i] == d && PathBetween(g, p[..i + 1], 0, d)
    ensures Reaching(blocks, v, p[..|p| - 1]) == Reaching(blocks, v, p[..i + 1])
  {
    var b := p[|p| - 1];
    assert PathBetween(g, p, 0, b) && d in p;
    i := LastVisit(p, d, d);
    Subpath(g, p, i, |p|);
    Subpath(g, p, 0, i + 1);
    assert p[0..i + 1] == p[..i + 1];
    var q, mid := p[i..], p[i + 1..|p| - 1];
    assert q[1..] == p[i + 1..];
    forall k | 0 <= k < |mid|
      ensures !DefinedIn(blocks, v, mid[k])
    {
      assert mid[k] == q[k + 1];
      NothingInBetween(g, blocks, v, d, q, k + 1);
    }
    NoDefNoReach(blocks, v, mid);
    assert p[..|p| - 1] == p[..i + 1] + mid;
    ReachingSplit(blocks, v, p[..i + 1], mid);
  }

  /** On every path the same definition arrives at a block without a phi. */
  lemma SameDefinitionArrives(g: Graph, blocks: seq<seq<Instr>>, v: nat, idom: seq<nat>, b: nat, p: seq<nat>, p': seq<nat>)
    requires ValidCode(g, blocks) && AllReachable(g) && PhisPlaced(g, blocks, v) && IdomsOf(g, idom)
    requires 0 < b < |blocks| && Phi(v) !in blocks[b]
    requires PathBetween(g, p, 0, b) && PathBetween(g, p', 0, b)
    ensures Reaching(blocks, v, p[..|p| - 1]) == Reaching(blocks, v, p'[..|p'| - 1])
    decreases |p|
  {
    var d := idom[b];
    assert IsIdom(g, d, b);
    var i := DecidedAtIdom(g, blocks, v, d, p);
    var i' := DecidedAtIdom(g, blocks, v, d, p');
    var q, q' := p[..i + 1], p'[..i' + 1];
    if !DefinedIn(blocks, v, d) {
      if Phi(v) in blocks[d] {
        PhiDefines(blocks, v, d);
        assert false;
      }
      SameDefinitionArrives(g, blocks, v, idom, d, q, q');
    }
  }

  /** Something always arrives, because the entry defines the variable. */
  lemma SomethingReaches(g: Graph, blocks: seq<seq<Instr>>, v: nat, p: seq<nat>)
    requires ValidCode(g, blocks) && DefinedIn(blocks, v, 0) && IsPath(g, p) && p[0] == 0
    ensures Reaching(blocks, v, p).Some?
  {
    if |p| > 1 {
      Subpath(g, p, 0, |p| - 1);
      assert p[0..|p| - 1] == p[..|p| - 1];
      SomethingReaches(g, blocks, v, p[..|p| - 1]);
    }
  }

  // ---- the order of the pass ----

  /** Every block once, the entry first, and every other block after one of its predecessors. */
  ghost predicate IsSearchOrder(g: Graph, order: seq<nat>) {
    && (forall b: nat :: b in order <==> b < |g.succs|)
    && (forall i, j :: 0 <= i < j < |order| ==> order[i] != order[j])
    && |order| > 0 && order[0] == 0
    && forall k :: 0 < k < |order| ==> FollowsPred(g, order, k)
  }

  ghost predicate FollowsPred(g: Graph, order: seq<nat>, k: nat) {
    k < |order| && exists j :: 0 <= j < k && Edge(g, order[j], order[k])
  }

  /** `b` is the entry or a successor of a block already numbered. */
  ghost predicate Discovered(g: Graph, order: seq<nat>, b: nat) {
    if order == [] then b == 0 else exists j :: 0 <= j < |order| && Edge(g, order[j], b)
  }

  /** What the search keeps: the numbered blocks form a search order so far, and their successors are numbered or on the stack. */
  ghost predicate SearchState(g: Graph, order: seq<nat>, dfStack: seq<nat>) {
    && (forall i, j :: 0 <= i < j < |order| ==> order[i] != order[j])
    && (forall b: nat :: b in order ==> b < |g.succs|)
    && (order == [] ==> dfStack == [0])
    && (order != [] ==> order[0] == 0)
    && (forall k :: 0 < k < |order| ==> FollowsPred(g, order, k))
    && (forall k :: 0 <= k < |dfStack| ==> dfStack[k] < |g.succs| && Discovered(g, order, dfStack[k]))
    && (forall u: nat, w: nat {:trigger Edge(g, u, w)} :: u in order && Edge(g, u, w) ==> w in order || w in dfStack)
  }

  lemma NumberNext(g: Graph, order: seq<nat>, dfStack: seq<nat>, block: nat)
    requires ValidGraph(g) && SearchState(g, order, dfStack + [block]) && block !in order
    ensures block < |g.succs| && SearchState(g, order + [block], dfStack + g.succs[block])
  {
    assert (dfStack + [block])[|dfStack|] == block;
    var order', dfStack' := order + [block], dfStack + g.succs[block];
    assert Discovered(g, order, block);
    DiscoveredGrows(g, order, block);
    forall k | 0 < k < |order'|
      ensures FollowsPred(g, order', k)
    {
      PredStays(g, order, block, k);
    }
    hide FollowsPred;
    forall k | 0 <= k < |dfStack'|
      ensures dfStack'[k] < |g.succs| && Discovered(g, order', dfStack'[k])
    {
      if k < |dfStack| {
        assert dfStack'[k] == (dfStack + [block])[k];
      } else {
        assert dfStack'[k] in g.succs[block];
        assert Edge(g, order'[|order|], dfStack'[k]);
      }
    }
    forall u: nat, w: nat {:trigger Edge(g, u, w)} | u in order' && Edge(g, u, w)
      ensures w in order' || w in dfStack'
    {
      if u != block {
        assert w in order || w in dfStack + [block];
      }
    }
  }

  lemma PredStays(g: Graph, order: seq<nat>, block: nat, k: nat)
    requires 0 < k <= |order| && (if k < |order| then FollowsPred(g, order, k) else Discovered(g, order, block))
    ensures FollowsPred(g, order + [block], k)
  {
    var order' := order + [block];
    if k < |order| {
      var j :| 0 <= j < k && Edge(g, order[j], order[k]);
      assert order'[j] == order[j];
    } else {
      var j :| 0 <= j < |order| && Edge(g, order[j], block);
      assert order'[j] == order[j];
    }
  }

  lemma SkipNumbered(g: Graph, order: seq<nat>, dfStack: seq<nat>, block: nat)
    requires ValidGraph(g) && SearchState(g, order, dfStack + [block]) && block in order
    ensures SearchState(g, order, dfStack)
  {
    forall k | 0 <= k < |dfStack|
      ensures dfStack[k] < |g.succs| && Discovered(g, order, dfStack[k])
    {
      assert dfStack[k] == (dfStack + [block])[k];
    }
  }

  /** Number the blocks with an explicit stack: pop, skip if numbered, number, push the successors. */
  method DepthFirstOrder(g: Graph) returns (order: seq<nat>)
    requires ValidGraph(g) && AllReachable(g)
    ensures IsSearchOrder(g, order)
  {
    hide AllReachable;
    order := [];
    var dfStack: seq<nat> := [0];
    ghost var todo := Blocks(|g.succs|);
    while dfStack != []
      invariant SearchState(g, order, dfStack)
      invariant forall b: nat :: b in todo <==> b < |g.succs| && b !in order
      decreases todo, |dfStack|
    {
      var block := dfStack[|dfStack| - 1];
      assert dfStack == dfStack[..|dfStack| - 1] + [block];
      dfStack := dfStack[..|dfStack| - 1];
      if block in order {
        SkipNumbered(g, order, dfStack, block);
      } else {
        NumberNext(g, order, dfStack, block);
        order := order + [block];
        dfStack := dfStack + g.succs[block];
        todo := todo - {block};
      }
    }
    AllInOrder(g, order);
  }

  lemma AllInOrder(g: Graph, order: seq<nat>)
    requires ValidGraph(g) && AllReachable(g) && SearchState(g, order, [])
    ensures forall b: nat :: b in order <==> b < |g.succs|
  {
    forall b: nat | b < |g.succs|
      ensures b in order
    {
      assert Reachable(g, b);
      var p :| PathBetween(g, p, 0, b);
      ClosedUnderPaths(g, order, p);
    }
  }

  lemma DiscoveredGrows(g: Graph, order: seq<nat>, block: nat)
    ensures forall b: nat :: order != [] && Discovered(g, order, b) ==> Discovered(g, order + [block], b)
  {
    forall b: nat | order != [] && Discovered(g, order, b)
      ensures Discovered(g, order + [block], b)
    {
      var j :| 0 <= j < |order| && Edge(g, order[j], b);
      assert (order + [block])[j] == order[j];
    }
  }

  lemma ClosedUnderPaths(g: Graph, order: seq<nat>, p: seq<nat>)
    requires order != [] && order[0] == 0 && IsPath(g, p) && p[0] == 0
    requires forall u: nat, w: nat :: u in order && Edge(g, u, w) ==> w in order
    ensures p[|p| - 1] in order
  {
    if |p| > 1 {
      Subpath(g, p, 0, |p| - 1);
      ClosedUnderPaths(g, order, p[0..|p| - 1]);
      assert Edge(g, p[|p| - 2], p[|p| - 1]);
    }
  }

  // ---- the pass ----

  type DefineListTable = map<nat, set<Site>>

  ghost predicate Incoming(t: DefineListTable, v: nat, s: Site) {
    v in t && s in t[v]
  }

  /** One scan of a block: the last definition of every variable it defines. */
  method ScanBlock(code: seq<Instr>, b: nat) returns (defineTable: map<nat, Site>)
    ensures forall v: nat :: v in defineTable <==> LastDef(code, v).Some?
    ensures forall v: nat :: v in defineTable ==> defineTable[v] == Site(b, LastDef(code, v).value)
  {
    defineTable := map[];
    var i := 0;
    while i < |code|
      invariant i <= |code|
      invariant forall v: nat :: v in defineTable <==> LastDef(code[..i], v).Some?
      invariant forall v: nat :: v in defineTable ==> defineTable[v] == Site(b, LastDef(code[..i], v).value)
    {
      var inst := code[i];
      assert code[..i + 1][..i] == code[..i];
      if inst.Phi? || inst.Store? || inst.InitLoad? {
        defineTable := defineTable[inst.v := Site(b, i)];
      }
      i := i + 1;
    }
    assert code[..i] == code;
  }

  /** Hand the definitions that leave a block to one successor. */
  method Propagate(target: DefineListTable, defineTable: map<nat, Site>, incoming: DefineListTable) returns (r: DefineListTable)
    ensures forall v: nat, s: Site :: Incoming(r, v, s) <==>
              Incoming(target, v, s) || (if v in defineTable then s == defineTable[v] else Incoming(incoming, v, s))
  {
    r := target;
    var keys := defineTable.Keys;
    while keys != {}
      invariant keys <= defineTable.Keys
      invariant forall v: nat, s: Site :: Incoming(r, v, s) <==>
                  Incoming(target, v, s) || (v in defineTable && v !in keys && s == defineTable[v])
    {
      var v: nat :| v in keys;
      r := r[v := (if v in r then r[v] else {}) + {defineTable[v]}];
      keys := keys - {v};
    }
    ghost var r1 := r;
    keys := incoming.Keys;
    while keys != {}
      invariant keys <= incoming.Keys
      invariant forall v: nat, s: Site :: Incoming(r, v, s) <==>
                  Incoming(r1, v, s) || (v !in defineTable && v !in keys && Incoming(incoming, v, s))
    {
      var v: nat :| v in keys;
      if v !in defineTable {
        r := r[v := (if v in r then r[v] else {}) + incoming[v]];
      }
      keys := keys - {v};
    }
  }

  /** Everything collected so far really arrives. */
  ghost predicate Sound(g: Graph, blocks: seq<seq<Instr>>, reach: seq<DefineListTable>)
    requires ValidCode(g, blocks)
  {
    forall b: nat, v: nat, s: Site :: b < |reach| && Incoming(reach[b], v, s) ==> EntersBlock(g, blocks, v, s, b)
  }

  /** Whatever leaves block `u` has been handed to its successor `b`. */
  ghost predicate HandedOn(g: Graph, blocks: seq<seq<Instr>>, reach: seq<DefineListTable>, n: nat, u: nat, b: nat)
    requires ValidCode(g, blocks) && b < |reach|
  {
    forall v: nat, s: Site :: v < n && LeavesBlock(g, blocks, v, s, u) ==> Incoming(reach[b], v, s)
  }

  lemma OwnDefinitionLeaves(g: Graph, blocks: seq<seq<Instr>>, v: nat, b: nat, s: Site)
    requires ValidCode(g, blocks) && AllReachable(g) && DefinedIn(blocks, v, b)
    ensures LeavesBlock(g, blocks, v, s, b) <==> s == Site(b, LastDef(blocks[b], v).value)
  {
    assert Reachable(g, b);
    var p :| PathBetween(g, p, 0, b);
    assert Reaching(blocks, v, p) == Some(Site(b, LastDef(blocks[b], v).value));
  }

  lemma PassesThrough(g: Graph, blocks: seq<seq<Instr>>, v: nat, b: nat, s: Site)
    requires ValidCode(g, blocks) && b < |blocks| && !DefinedIn(blocks, v, b) && EntersBlock(g, blocks, v, s, b)
    ensures LeavesBlock(g, blocks, v, s, b)
  {
    var p :| PathBetween(g, p, 0, b) && |p| >= 2 && Reaching(blocks, v, p[..|p| - 1]) == Some(s);
    assert Reaching(blocks, v, p) == Some(s);
  }

  lemma FollowsEdge(g: Graph, blocks: seq<seq<Instr>>, v: nat, u: nat, b: nat, s: Site)
    requires ValidCode(g, blocks) && LeavesBlock(g, blocks, v, s, u) && Edge(g, u, b) && b < |blocks|
    ensures EntersBlock(g, blocks, v, s, b)
  {
    var p :| PathBetween(g, p, 0, u) && Reaching(blocks, v, p) == Some(s);
    ExtendPath(g, p, b);
    assert (p + [b])[..|p + [b]| - 1] == p;
  }

  lemma CameOverEdge(g: Graph, blocks: seq<seq<Instr>>, v: nat, b: nat, s: Site) returns (u: nat)
    requires ValidCode(g, blocks) && EntersBlock(g, blocks, v, s, b)
    ensures u < |blocks| && Edge(g, u, b) && LeavesBlock(g, blocks, v, s, u)
  {
    var p :| PathBetween(g, p, 0, b) && |p| >= 2 && Reaching(blocks, v, p[..|p| - 1]) == Some(s);
    u := p[|p| - 2];
    Subpath(g, p, 0, |p| - 1);
    assert p[0..|p| - 1] == p[..|p| - 1];
    assert Edge(g, p[|p| - 2], p[|p| - 1]);
  }

  ghost predicate AllPhisPlaced(g: Graph, blocks: seq<seq<Instr>>, n: nat)
    requires ValidCode(g, blocks)
  {
    forall v: nat :: v < n ==> PhisPlaced(g, blocks, v)
  }

  /**
   When the pass comes to a block that does not define `v`, whatever can arrive there
   has already been collected, although later predecessors have not been seen.
   */
  lemma CollectedInTime(g: Graph, blocks: seq<seq<Instr>>, idom: seq<nat>, reach: seq<DefineListTable>, v: nat, w: nat, b: nat)
    requires ValidCode(g, blocks) && AllReachable(g) && PhisPlaced(g, blocks, v) && IdomsOf(g, idom) && |reach| == |blocks|
    requires 0 < b < |blocks| && !DefinedIn(blocks, v, b) && Edge(g, w, b) && w < |blocks|
    requires Sound(g, blocks, reach)
    requires forall s: Site :: LeavesBlock(g, blocks, v, s, w) ==> Incoming(reach[b], v, s)
    ensures exists s: Site :: Incoming(reach[b], v, s)
    ensures forall s: Site :: LeavesBlock(g, blocks, v, s, b) ==> Incoming(reach[b], v, s)
  {
    assert Reachable(g, w);
    var r :| PathBetween(g, r, 0, w);
    SomethingReaches(g, blocks, v, r);
    var s0 := Reaching(blocks, v, r).value;
    assert LeavesBlock(g, blocks, v, s0, w);
    assert Incoming(reach[b], v, s0);
    FollowsEdge(g, blocks, v, w, b, s0);
    var p0 :| PathBetween(g, p0, 0, b) && |p0| >= 2 && Reaching(blocks, v, p0[..|p0| - 1]) == Some(s0);
    forall s: Site | LeavesBlock(g, blocks, v, s, b)
      ensures s == s0
    {
      var p :| PathBetween(g, p, 0, b) && Reaching(blocks, v, p) == Some(s);
      if Phi(v) in blocks[b] {
        PhiDefines(blocks, v, b);
      }
      SameDefinitionArrives(g, blocks, v, idom, b, p, p0);
    }
  }

  /** What block `b` sends on, once everything that can arrive there is known. */
  ghost predicate Known(g: Graph, blocks: seq<seq<Instr>>, n: nat, table: map<nat, Site>, incoming: DefineListTable, b: nat)
    requires ValidCode(g, blocks)
  {
    forall v: nat, s: Site :: v < n && LeavesBlock(g, blocks, v, s, b) ==> if v in table then s == table[v] else Incoming(incoming, v, s)
  }

  /** What block `b` sends on is real. */
  ghost predicate Real(g: Graph, blocks: seq<seq<Instr>>, table: map<nat, Site>, incoming: DefineListTable, b: nat)
    requires ValidCode(g, blocks)
  {
    forall v: nat, s: Site :: (if v in table then s == table[v] else Incoming(incoming, v, s)) ==> LeavesBlock(g, blocks, v, s, b)
  }

  /** The blocks before position `k` of the order have handed on what leaves them. */
  ghost predicate PassState(g: Graph, blocks: seq<seq<Instr>>, n: nat, order: seq<nat>, k: nat, reach: seq<DefineListTable>)
    requires ValidCode(g, blocks)
  {
    && |reach| == |blocks|
    && k <= |order|
    && Sound(g, blocks, reach)
    && forall i: nat, b: nat :: i < k && b < |reach| && Edge(g, order[i], b) ==> HandedOn(g, blocks, reach, n, order[i], b)
  }

  lemma BlockIsKnown(g: Graph, blocks: seq<seq<Instr>>, n: nat, idom: seq<nat>, order: seq<nat>, k: nat, reach: seq<DefineListTable>, table: map<nat, Site>)
    requires ValidCode(g, blocks) && AllReachable(g) && AllPhisPlaced(g, blocks, n) && IdomsOf(g, idom)
    requires IsSearchOrder(g, order) && k < |order| && order[k] < |blocks| && PassState(g, blocks, n, order, k, reach)
    requires forall v: nat :: v in table <==> LastDef(blocks[order[k]], v).Some?
    requires forall v: nat :: v in table ==> table[v] == Site(order[k], LastDef(blocks[order[k]], v).value)
    ensures Known(g, blocks, n, table, reach[order[k]], order[k])
    ensures Real(g, blocks, table, reach[order[k]], order[k])
  {
    var b := order[k];
    assert b in order;
    forall v: nat, s: Site | v < n && LeavesBlock(g, blocks, v, s, b)
      ensures if v in table then s == table[v] else Incoming(reach[b], v, s)
    {
      if v in table {
        OwnDefinitionLeaves(g, blocks, v, b, s);
      } else {
        assert PhisPlaced(g, blocks, v);
        assert b != 0 && k != 0;
        assert FollowsPred(g, order, k);
        var j: nat :| j < k && Edge(g, order[j], order[k]);
        assert order[j] in order;
        assert HandedOn(g, blocks, reach, n, order[j], b);
        CollectedInTime(g, blocks, idom, reach, v, order[j], b);
      }
    }
    forall v: nat, s: Site | if v in table then s == table[v] else Incoming(reach[b], v, s)
      ensures LeavesBlock(g, blocks, v, s, b)
    {
      if v in table {
        OwnDefinitionLeaves(g, blocks, v, b, s);
      } else {
        PassesThrough(g, blocks, v, b, s);
      }
    }
  }

  ghost predicate Grows(t: DefineListTable, t': DefineListTable) {
    forall v: nat, s: Site :: Incoming(t, v, s) ==> Incoming(t', v, s)
  }

  /** Hand what leaves `block` to all its successors. */
  method PropagateAll(g: Graph, ghost blocks: seq<seq<Instr>>, ghost n: nat, block: nat, table: map<nat, Site>, reach0: seq<DefineListTable>)
    returns (reach: seq<DefineListTable>)
    requires ValidCode(g, blocks) && |reach0| == |blocks| && block < |blocks| && Sound(g, blocks, reach0)
    requires Known(g, blocks, n, table, reach0[block], block) && Real(g, blocks, table, reach0[block], block)
    ensures |reach| == |reach0| && Sound(g, blocks, reach)
    ensures forall b: nat :: b < |reach| ==> Grows(reach0[b], reach[b])
    ensures forall b: nat :: b < |reach| && Edge(g, block, b) ==> HandedOn(g, blocks, reach, n, block, b)
  {
    reach := reach0;
    var succs := g.succs[block];
    var j := 0;
    while j < |succs|
      invariant j <= |succs| && |reach| == |reach0| && Sound(g, blocks, reach)
      invariant forall b: nat :: b < |reach| ==> Grows(reach0[b], reach[b])
      invariant Known(g, blocks, n, table, reach[block], block) && Real(g, blocks, table, reach[block], block)
      invariant forall i :: 0 <= i < j ==> succs[i] < |reach| && HandedOn(g, blocks, reach, n, block, succs[i])
    {
      assert succs[j] in succs && Edge(g, block, succs[j]);
      reach := PropagateOne(g, blocks, n, block, succs[j], table, reach);
      j := j + 1;
    }
  }

  method PropagateOne(ghost g: Graph, ghost blocks: seq<seq<Instr>>, ghost n: nat, block: nat, succ: nat, table: map<nat, Site>, reach0: seq<DefineListTable>)
    returns (reach: seq<DefineListTable>)
    requires ValidCode(g, blocks) && |reach0| == |blocks| && block < |blocks| && succ < |blocks| && Edge(g, block, succ)
    requires Sound(g, blocks, reach0)
    requires Known(g, blocks, n, table, reach0[block], block) && Real(g, blocks, table, reach0[block], block)
    ensures |reach| == |reach0| && Sound(g, blocks, reach)
    ensures forall b: nat :: b < |reach| ==> Grows(reach0[b], reach[b])
    ensures Known(g, blocks, n, table, reach[block], block) && Real(g, blocks, table, reach[block], block)
    ensures HandedOn(g, blocks, reach, n, block, succ)
  {
    hide LeavesBlock, EntersBlock;
    var merged := Propagate(reach0[succ], table, reach0[block]);
    reach := reach0[succ := merged];
    forall b: nat, v: nat, s: Site | b < |reach| && Incoming(reach[b], v, s)
      ensures EntersBlock(g, blocks, v, s, b)
    {
      if !Incoming(reach0[b], v, s) {
        FollowsEdge(g, blocks, v, block, succ, s);
      }
    }
  }

  /**
   One pass over the blocks. Afterwards the set collected for a variable at a block
   is exactly the set of definitions that arrive there along some path.
   */
  method ComputeReaching(g: Graph, blocks: seq<seq<Instr>>, n: nat, order: seq<nat>, ghost idom: seq<nat>) returns (reach: seq<DefineListTable>)
    requires ValidCode(g, blocks) && AllReachable(g) && AllPhisPlaced(g, blocks, n) && IdomsOf(g, idom) && IsSearchOrder(g, order)
    ensures |reach| == |blocks|
    ensures forall b: nat, v: nat, s: Site :: b < |blocks| && v < n ==> (Incoming(reach[b], v, s) <==> EntersBlock(g, blocks, v, s, b))
  {
    reach := seq(|blocks|, _ => map[]);
    var k := 0;
    while k < |order|
      invariant PassState(g, blocks, n, order, k, reach)
    {
      var block := order[k];
      assert block in order;
      var table := ScanBlock(blocks[block], block);
      BlockIsKnown(g, blocks, n, idom, order, k, reach, table);
      ghost var reach0 := reach;
      reach := PropagateAll(g, blocks, n, block, table, reach);
      PassAdvances(g, blocks, n, order, k, reach0, reach);
      k := k + 1;
    }
    PassComplete(g, blocks, n, order, reach);
  }

  lemma PassAdvances(g: Graph, blocks: seq<seq<Instr>>, n: nat, order: seq<nat>, k: nat, reach: seq<DefineListTable>, reach': seq<DefineListTable>)
    requires ValidCode(g, blocks) && PassState(g, blocks, n, order, k, reach) && k < |order|
    requires |reach'| == |reach| && Sound(g, blocks, reach')
    requires forall b: nat :: b < |reach| ==> Grows(reach[b], reach'[b])
    requires forall b: nat :: b < |reach| && Edge(g, order[k], b) ==> HandedOn(g, blocks, reach', n, order[k], b)
    ensures PassState(g, blocks, n, order, k + 1, reach')
  {
    forall i: nat, b: nat | i < k && b < |reach| && Edge(g, order[i], b)
      ensures HandedOn(g, blocks, reach', n, order[i], b)
    {
      assert HandedOn(g, blocks, reach, n, order[i], b) && Grows(reach[b], reach'[b]);
    }
  }

  lemma PassComplete(g: Graph, blocks: seq<seq<Instr>>, n: nat, order: seq<nat>, reach: seq<DefineListTable>)
    requires ValidCode(g, blocks) && PassState(g, blocks, n, order, |order|, reach) && IsSearchOrder(g, order)
    ensures forall b: nat, v: nat, s: Site :: b < |blocks| && v < n ==> (Incoming(reach[b], v, s) <==> EntersBlock(g, blocks, v, s, b))
  {
    forall b: nat, v: nat, s: Site | b < |blocks| && v < n && EntersBlock(g, blocks, v, s, b)
      ensures Incoming(reach[b], v, s)
    {
      var u := CameOverEdge(g, blocks, v, b, s);
      assert u in order;
      var i: nat :| i < |order| && order[i] == u;
      assert HandedOn(g, blocks, reach, n, order[i], b);
    }
  }
}
