/**
 Rewriting loads of promoted variables, and what it means for every run: the value
 that replaces a load is the value the memory cell holds when the load executes.
 */
module PromotedLoads {
  import opened Digraph
  import opened DominanceFrontier
  import opened Options
  import opened ReachingDefinitions

  /** The last definition of `v` executed before instruction `i` of the last block of `p`. */
  ghost function LastBefore(blocks: seq<seq<Instr>>, v: nat, p: seq<nat>, i: nat): Option<Site>
    requires p != [] && forall k :: 0 <= k < |p| ==> p[k] < |blocks|
    requires i <= |blocks[p[|p| - 1]]|
  {
    var b := p[|p| - 1];
    var own := LastDef(blocks[b][..i], v);
    if own.Some? then Some(Site(b, own.value)) else Reaching(blocks, v, p[..|p| - 1])
  }

  ghost predicate CollectsExactly(g: Graph, blocks: seq<seq<Instr>>, n: nat, reach: seq<DefineListTable>)
    requires ValidCode(g, blocks)
  {
    && |reach| == |blocks|
    && forall b: nat, v: nat, s: Site :: b < |blocks| && v < n ==> (Incoming(reach[b], v, s) <==> EntersBlock(g, blocks, v, s, b))
  }

  /** The entry loads the initial value of `v` before anything else reads it. */
  ghost predicate EntryDefinesFirst(blocks: seq<seq<Instr>>, v: nat) {
    && |blocks| > 0
    && forall i :: 0 <= i < |blocks[0]| && blocks[0][i] == Load(v) ==> LastDef(blocks[0][..i], v).Some?
  }

  /** The walk of a block can answer its load `i`: from the block itself or from a single collected definition. */
  ghost predicate HasSource(code: seq<Instr>, n: nat, incoming: DefineListTable, i: nat) {
    && i < |code| && code[i].Load? && code[i].v < n
    && (LastDef(code[..i], code[i].v).Some? || (code[i].v in incoming && |incoming[code[i].v]| == 1))
  }

  /** `s` is the latest definition in the block before load `i`, or else one collected at its head. */
  ghost predicate IsSource(code: seq<Instr>, b: nat, incoming: DefineListTable, i: nat, s: Site) {
    && i < |code| && code[i].Load?
    && if LastDef(code[..i], code[i].v).Some? then s == Site(b, LastDef(code[..i], code[i].v).value)
       else Incoming(incoming, code[i].v, s)
  }

  function Arriving(incoming: DefineListTable, v: nat): (r: set<Site>)
    ensures forall s: Site :: s in r <==> Incoming(incoming, v, s)
  {
    if v in incoming then incoming[v] else {}
  }

  /**
   Walk one block: a load takes the latest definition in the block, or else the only
   definition collected at the head of the block; a phi takes everything collected there.
   */
  method RewriteBlock(code: seq<Instr>, b: nat, n: nat, incoming: DefineListTable)
    returns (sources: map<nat, Site>, phis: map<nat, set<Site>>)
    ensures forall i: nat :: i in sources <==> HasSource(code, n, incoming, i)
    ensures forall i: nat :: i in sources ==> IsSource(code, b, incoming, i, sources[i])
    ensures forall i: nat :: i in phis <==> i < |code| && code[i].Phi?
    ensures forall i: nat, s: Site :: i in phis ==> (s in phis[i] <==> Incoming(incoming, code[i].v, s))
  {
    LastDefEmpty(code);
    NothingRewritten(code, b, n, incoming);
    hide HasSource, IsSource, LastDef, Incoming, TableAt, SourcesAt, PhisAt;
    sources, phis := map[], map[];
    var defineTable: map<nat, Site> := map[];
    var i := 0;
    while i < |code|
      invariant i <= |code| && TableAt(code, b, i, defineTable)
      invariant SourcesAt(code, b, n, incoming, i, sources) && PhisAt(code, incoming, i, phis)
    {
      SourceIsLoad(code, n, incoming, i);
      TableStep(code, b, i, defineTable);
      PhisStep(code, incoming, i, phis);
      ghost var sources0 := sources;
      var source: Option<Site> := None;
      if code[i].Load? {
        source := SourceOf(code, b, n, incoming, i, defineTable);
        if source.Some? {
          sources := sources[i := source.value];
        }
      } else if code[i].Phi? {
        phis := phis[i := Arriving(incoming, code[i].v)];
        defineTable := defineTable[code[i].v := Site(b, i)];
      } else if code[i].Store? || code[i].InitLoad? {
        defineTable := defineTable[code[i].v := Site(b, i)];
      }
      SourcesStep(code, b, n, incoming, i, sources0, source);
      i := i + 1;
    }
    Rewritten(code, b, n, incoming, sources, phis);
  }

  // ---- what the walk has done before instruction `i` ----

  ghost predicate TableAt(code: seq<Instr>, b: nat, i: nat, defineTable: map<nat, Site>)
    requires i <= |code|
  {
    && (forall v: nat :: v in defineTable <==> LastDef(code[..i], v).Some?)
    && (forall v: nat :: v in defineTable ==> defineTable[v] == Site(b, LastDef(code[..i], v).value))
  }

  ghost predicate SourcesAt(code: seq<Instr>, b: nat, n: nat, incoming: DefineListTable, i: nat, sources: map<nat, Site>) {
    && (forall k: nat :: k in sources <==> k < i && HasSource(code, n, incoming, k))
    && (forall k: nat :: k in sources ==> IsSource(code, b, incoming, k, sources[k]))
  }

  ghost predicate PhisAt(code: seq<Instr>, incoming: DefineListTable, i: nat, phis: map<nat, set<Site>>) {
    && (forall k: nat :: k in phis <==> k < i <= |code| && code[k].Phi?)
    && (forall k: nat, s: Site :: k in phis ==> (s in phis[k] <==> Incoming(incoming, code[k].v, s)))
  }

  lemma NothingRewritten(code: seq<Instr>, b: nat, n: nat, incoming: DefineListTable)
    ensures TableAt(code, b, 0, map[]) && SourcesAt(code, b, n, incoming, 0, map[]) && PhisAt(code, incoming, 0, map[])
  {
  }

  lemma TableStep(code: seq<Instr>, b: nat, i: nat, table: map<nat, Site>)
    requires i < |code| && TableAt(code, b, i, table)
    ensures TableAt(code, b, i + 1, if code[i].Phi? || code[i].Store? || code[i].InitLoad? then table[code[i].v := Site(b, i)] else table)
  {
    hide LastDef;
    LastDefGrows(code, i);
  }

  lemma SourcesStep(code: seq<Instr>, b: nat, n: nat, incoming: DefineListTable, i: nat, sources: map<nat, Site>, source: Option<Site>)
    requires SourcesAt(code, b, n, incoming, i, sources)
    requires source.Some? <==> HasSource(code, n, incoming, i)
    requires source.Some? ==> IsSource(code, b, incoming, i, source.value)
    ensures SourcesAt(code, b, n, incoming, i + 1, if source.Some? then sources[i := source.value] else sources)
  {
    hide HasSource, IsSource;
  }

  lemma PhisStep(code: seq<Instr>, incoming: DefineListTable, i: nat, phis: map<nat, set<Site>>)
    requires i < |code| && PhisAt(code, incoming, i, phis)
    ensures PhisAt(code, incoming, i + 1, if code[i].Phi? then phis[i := Arriving(incoming, code[i].v)] else phis)
  {
    hide Incoming;
  }

  lemma Rewritten(code: seq<Instr>, b: nat, n: nat, incoming: DefineListTable, sources: map<nat, Site>, phis: map<nat, set<Site>>)
    requires SourcesAt(code, b, n, incoming, |code|, sources) && PhisAt(code, incoming, |code|, phis)
    ensures forall i: nat :: i in sources <==> HasSource(code, n, incoming, i)
    ensures forall i: nat :: i in sources ==> IsSource(code, b, incoming, i, sources[i])
    ensures forall i: nat :: i in phis <==> i < |code| && code[i].Phi?
    ensures forall i: nat, s: Site :: i in phis ==> (s in phis[i] <==> Incoming(incoming, code[i].v, s))
  {
    LastDefEmpty(code);
    hide IsSource, Incoming;
  }

  lemma LastDefEmpty(code: seq<Instr>)
    ensures forall v: nat :: LastDef(code[..0], v).None?
    ensures forall n: nat, incoming: DefineListTable, i: nat :: HasSource(code, n, incoming, i) ==> i < |code|
  {
  }

  lemma LastDefGrows(code: seq<Instr>, i: nat)
    requires i < |code|
    ensures forall v: nat :: LastDef(code[..i + 1], v) == if Defines(code[i], v) then Some(i) else LastDef(code[..i], v)
  {
    assert code[..i + 1][..i] == code[..i];
  }

  lemma SourceIsLoad(code: seq<Instr>, n: nat, incoming: DefineListTable, i: nat)
    ensures HasSource(code, n, incoming, i) ==> i < |code| && code[i].Load?
  {
  }

  method SourceOf(code: seq<Instr>, b: nat, n: nat, incoming: DefineListTable, i: nat, defineTable: map<nat, Site>)
    returns (source: Option<Site>)
    requires i < |code| && code[i].Load?
    requires TableAt(code, b, i, defineTable)
    ensures source.Some? <==> HasSource(code, n, incoming, i)
    ensures source.Some? ==> IsSource(code, b, incoming, i, source.value)
  {
    source := None;
    if code[i].v < n {
      if code[i].v in defineTable {
        source := Some(defineTable[code[i].v]);
      } else if code[i].v in incoming && |incoming[code[i].v]| == 1 {
        var s :| s in incoming[code[i].v];
        source := Some(s);
      }
    }
  }

  lemma SingletonSize<T>(s: set<T>, x: T)
    requires x in s && forall y :: y in s ==> y == x
    ensures |s| == 1
  {
    assert s == {x};
  }

  /** Every load finds its definition, and it is the one executed last on every path. */
  lemma LoadSource(g: Graph, blocks: seq<seq<Instr>>, n: nat, idom: seq<nat>, reach: seq<DefineListTable>,
                   b: nat, i: nat, s: Site)
    requires ValidCode(g, blocks) && AllReachable(g) && EntryHasNoPred(g) && AllPhisPlaced(g, blocks, n) && IdomsOf(g, idom)
    requires PhisFirst(blocks) && CollectsExactly(g, blocks, n, reach)
    requires b < |blocks| && i < |blocks[b]| && blocks[b][i].Load? && blocks[b][i].v < n
    requires EntryDefinesFirst(blocks, blocks[b][i].v)
    requires HasSource(blocks[b], n, reach[b], i) ==> IsSource(blocks[b], b, reach[b], i, s)
    ensures HasSource(blocks[b], n, reach[b], i)
    ensures forall p :: PathBetween(g, p, 0, b) ==> LastBefore(blocks, blocks[b][i].v, p, i) == Some(s)
  {
    var v := blocks[b][i].v;
    if LastDef(blocks[b][..i], v).None? {
      assert b != 0;
      assert PhisPlaced(g, blocks, v);
      NoPhiAbove(blocks, v, b, i);
      assert Reachable(g, b);
      var p0 :| PathBetween(g, p0, 0, b);
      Subpath(g, p0, 0, |p0| - 1);
      assert p0[0..|p0| - 1] == p0[..|p0| - 1];
      SomethingReaches(g, blocks, v, p0[..|p0| - 1]);
      var s0 := Reaching(blocks, v, p0[..|p0| - 1]).value;
      forall p | PathBetween(g, p, 0, b)
        ensures Reaching(blocks, v, p[..|p| - 1]) == Some(s0)
      {
        SameDefinitionArrives(g, blocks, v, idom, b, p, p0);
      }
      assert EntersBlock(g, blocks, v, s0, b);
      assert Incoming(reach[b], v, s0);
      forall s | s in reach[b][v]
        ensures s == s0
      {
        assert Incoming(reach[b], v, s) && EntersBlock(g, blocks, v, s, b);
      }
      SingletonSize(reach[b][v], s0);
    }
  }

  lemma NoPhiAbove(blocks: seq<seq<Instr>>, v: nat, b: nat, i: nat)
    requires PhisFirst(blocks) && b < |blocks| && i < |blocks[b]| && blocks[b][i].Load? && LastDef(blocks[b][..i], v).None?
    ensures Phi(v) !in blocks[b]
  {
    forall k | 0 <= k < |blocks[b]|
      ensures blocks[b][k] != Phi(v)
    {
      assert k < i ==> blocks[b][..i][k] == blocks[b][k];
    }
  }

  // ---- runs ----

  /**
   One run: memory of the promoted variables, the value last produced at every
   definition site, and the site that last defined every variable. A phi takes the
   value of the definition that was executed last. `clock` counts stores, whose
   values are whatever the run computes.
   */
  datatype State = State(mem: map<nat, int>, val: map<Site, int>, last: map<nat, Site>, clock: nat)

  ghost function Step(inst: Instr, site: Site, st: State, input: nat -> int): State {
    match inst
    case Store(v) => State(st.mem[v := input(st.clock)], st.val[site := input(st.clock)], st.last[v := site], st.clock + 1)
    case Phi(v) =>
      var x := if v in st.last && st.last[v] in st.val then st.val[st.last[v]] else 0;
      State(st.mem, st.val[site := x], st.last[v := site], st.clock)
    case InitLoad(v) =>
      var x := if v in st.mem then st.mem[v] else 0;
      State(st.mem[v := x], st.val[site := x], st.last[v := site], st.clock)
    case Load(_) => st
    case Other => st
  }

  /** Run the instructions of block `b` before index `i`. */
  ghost function RunCode(code: seq<Instr>, b: nat, i: nat, st: State, input: nat -> int): State
    requires i <= |code|
  {
    if i == 0 then st else Step(code[i - 1], Site(b, i - 1), RunCode(code, b, i - 1, st, input), input)
  }

  /** Run the blocks of a path from beginning to end. */
  ghost function RunPath(blocks: seq<seq<Instr>>, p: seq<nat>, st: State, input: nat -> int): State
    requires forall k :: 0 <= k < |p| ==> p[k] < |blocks|
  {
    if p == [] then st
    else
      var b := p[|p| - 1];
      RunCode(blocks[b], b, |blocks[b]|, RunPath(blocks, p[..|p| - 1], st, input), input)
  }

  /** The value at the site that last defined a variable is what memory holds. */
  ghost predicate InStep(blocks: seq<seq<Instr>>, st: State) {
    forall v: nat :: v in st.last ==>
      && v in st.mem
      && st.last[v] in st.val
      && st.val[st.last[v]] == st.mem[v]
      && SiteDefines(blocks, st.last[v], v)
  }

  ghost predicate SiteDefines(blocks: seq<seq<Instr>>, s: Site, v: nat) {
    s.block < |blocks| && s.index < |blocks[s.block]| && Defines(blocks[s.block][s.index], v)
  }

  /** A phi only executes when its variable has been defined. */
  ghost predicate PhiReady(code: seq<Instr>, last: map<nat, Site>, i: nat) {
    forall k :: 0 <= k < i <= |code| && code[k].Phi? ==> code[k].v in last
  }

  lemma CodeKeepsStep(blocks: seq<seq<Instr>>, b: nat, i: nat, st: State, input: nat -> int)
    requires b < |blocks| && i <= |blocks[b]| && InStep(blocks, st) && PhiReady(blocks[b], st.last, i)
    ensures InStep(blocks, RunCode(blocks[b], b, i, st, input))
    ensures forall v :: v in st.last ==> v in RunCode(blocks[b], b, i, st, input).last
  {
    if i > 0 {
      CodeKeepsStep(blocks, b, i - 1, st, input);
      var inst := blocks[b][i - 1];
      assert inst.Load? || inst.Other? || SiteDefines(blocks, Site(b, i - 1), inst.v);
    }
  }

  ghost function AsOption(last: map<nat, Site>, v: nat): Option<Site> {
    if v in last then Some(last[v]) else None
  }

  lemma CodeTracksLast(blocks: seq<seq<Instr>>, b: nat, i: nat, st: State, input: nat -> int, v: nat)
    requires b < |blocks| && i <= |blocks[b]|
    ensures AsOption(RunCode(blocks[b], b, i, st, input).last, v) ==
            if LastDef(blocks[b][..i], v).Some? then Some(Site(b, LastDef(blocks[b][..i], v).value)) else AsOption(st.last, v)
  {
    if i > 0 {
      CodeTracksLast(blocks, b, i - 1, st, input, v);
      assert blocks[b][..i][..i - 1] == blocks[b][..i - 1];
    }
  }

  lemma PathTracksLast(blocks: seq<seq<Instr>>, p: seq<nat>, st: State, input: nat -> int, v: nat)
    requires (forall k :: 0 <= k < |p| ==> p[k] < |blocks|) && st.last == map[]
    ensures AsOption(RunPath(blocks, p, st, input).last, v) == Reaching(blocks, v, p)
  {
    if p != [] {
      var b := p[|p| - 1];
      PathTracksLast(blocks, p[..|p| - 1], st, input, v);
      CodeTracksLast(blocks, b, |blocks[b]|, RunPath(blocks, p[..|p| - 1], st, input), input, v);
      assert blocks[b][..|blocks[b]|] == blocks[b];
    }
  }

  /** Phi variables are promoted, and the entry has no phis. */
  ghost predicate PhisArePromoted(blocks: seq<seq<Instr>>, n: nat) {
    && (forall b, k :: 0 <= b < |blocks| && 0 <= k < |blocks[b]| && blocks[b][k].Phi? ==> blocks[b][k].v < n)
    && (|blocks| > 0 ==> forall k :: 0 <= k < |blocks[0]| ==> !blocks[0][k].Phi?)
  }

  lemma PathKeepsStep(g: Graph, blocks: seq<seq<Instr>>, n: nat, p: seq<nat>, st: State, input: nat -> int)
    requires ValidCode(g, blocks) && AllPhisPlaced(g, blocks, n) && PhisArePromoted(blocks, n)
    requires p == [] || (IsPath(g, p) && p[0] == 0)
    requires st.last == map[]
    ensures InStep(blocks, RunPath(blocks, p, st, input))
    ensures p != [] ==> forall v: nat :: v < n ==> v in RunPath(blocks, p, st, input).last
  {
    if p != [] {
      var b, q := p[|p| - 1], p[..|p| - 1];
      assert |p| > 1 ==> IsPath(g, q);
      PathKeepsStep(g, blocks, n, q, st, input);
      var mid := RunPath(blocks, q, st, input);
      assert PhiReady(blocks[b], mid.last, |blocks[b]|);
      CodeKeepsStep(blocks, b, |blocks[b]|, mid, input);
      forall v: nat | v < n
        ensures v in RunPath(blocks, p, st, input).last
      {
        assert PhisPlaced(g, blocks, v);
        SomethingReaches(g, blocks, v, p);
        PathTracksLast(blocks, p, st, input, v);
      }
    }
  }

  /**
   Promotion is correct on every run: along any path, with any stored values, the
   definition chosen for a load holds exactly what memory holds when the load executes.
   */
  lemma PromotionIsCorrect(g: Graph, blocks: seq<seq<Instr>>, n: nat, p: seq<nat>, i: nat, s: Site, st: State, input: nat -> int)
    requires ValidCode(g, blocks) && AllPhisPlaced(g, blocks, n) && PhisArePromoted(blocks, n)
    requires IsPath(g, p) && p[0] == 0 && st.last == map[]
    requires i < |blocks[p[|p| - 1]]| && blocks[p[|p| - 1]][i].Load? && blocks[p[|p| - 1]][i].v < n
    requires LastBefore(blocks, blocks[p[|p| - 1]][i].v, p, i) == Some(s)
    ensures var b, v := p[|p| - 1], blocks[p[|p| - 1]][i].v;
            var now := RunCode(blocks[b], b, i, RunPath(blocks, p[..|p| - 1], st, input), input);
            v in now.mem && s in now.val && now.mem[v] == now.val[s]
  {
    var b, v, q := p[|p| - 1], blocks[p[|p| - 1]][i].v, p[..|p| - 1];
    assert |p| > 1 ==> IsPath(g, q);
    PathKeepsStep(g, blocks, n, q, st, input);
    var mid := RunPath(blocks, q, st, input);
    assert PhiReady(blocks[b], mid.last, i);
    CodeKeepsStep(blocks, b, i, mid, input);
    CodeTracksLast(blocks, b, i, mid, input, v);
    PathTracksLast(blocks, q, st, input, v);
  }
}
