/**
 What promotion decides: frontiers, phis, initial loads, reaching definitions, and what
 stands for every load, for a function whose promotable variables are
 numbered 0..n and allocated at the head of the entry block.
 */
module MemoryToRegister {
  import opened Digraph
  import DominatorSolver
  import opened DominanceFrontier
  import opened Options
  import opened ReachingDefinitions
  import opened PromotedLoads

  /** Code before promotion: no phis and no initial loads yet. */
  ghost predicate Unpromoted(blocks: seq<seq<Instr>>) {
    forall b, k :: 0 <= b < |blocks| && 0 <= k < |blocks[b]| ==> !blocks[b][k].Phi? && !blocks[b][k].InitLoad?
  }

  /** The blocks that store to `v`, in block order. */
  method StoreBlocks(blocks: seq<seq<Instr>>, v: nat) returns (stores: seq<nat>)
    ensures forall b: nat :: b in stores <==> b < |blocks| && Store(v) in blocks[b]
  {
    stores := [];
    var b := 0;
    while b < |blocks|
      invariant b <= |blocks|
      invariant forall c: nat :: c in stores <==> c < b && Store(v) in blocks[c]
    {
      if Store(v) in blocks[b] {
        stores := stores + [b];
      }
      b := b + 1;
    }
  }

  function PhisFor(vars: seq<nat>): (r: seq<Instr>)
    ensures |r| == |vars| && forall k :: 0 <= k < |vars| ==> r[k] == Phi(vars[k])
  {
    seq(|vars|, k requires 0 <= k < |vars| => Phi(vars[k]))
  }

  function InitLoads(n: nat): (r: seq<Instr>)
    ensures |r| == n && forall k :: 0 <= k < n ==> r[k] == InitLoad(k)
  {
    seq(n, k requires 0 <= k < n => InitLoad(k))
  }

  /** Initial loads in the entry, phis at the head of the other blocks. */
  function Promoted(blocks: seq<seq<Instr>>, heads: seq<seq<nat>>, n: nat): (r: seq<seq<Instr>>)
    requires |heads| == |blocks|
  {
    seq(|blocks|, b requires 0 <= b < |blocks| =>
      if b == 0 then PhisFor(heads[0]) + InitLoads(n) + blocks[0] else PhisFor(heads[b]) + blocks[b])
  }

  /** `heads` holds, for every variable, one phi in each block of the iterated frontier of its stores. */
  ghost predicate HeadsPlaced(g: Graph, blocks: seq<seq<Instr>>, domfr: seq<set<nat>>, stores: seq<seq<nat>>, heads: seq<seq<nat>>, n: nat) {
    && |blocks| == |domfr| == |heads| == |g.succs| > 0
    && |stores| == n
    && (forall x: nat, b: nat :: x < |domfr| && b < |domfr| ==> (b in domfr[x] <==> InFrontier(g, x, b)))
    && (forall v: nat, b: nat :: v < n ==> (b in stores[v] <==> b < |blocks| && Store(v) in blocks[b]))
    && (forall v: nat, b: nat :: v < n && b < |heads| ==> (v in heads[b] <==> InIteratedFrontier(domfr, stores[v], b)))
    && (forall v: nat, b: nat :: b < |heads| && v in heads[b] ==> v < n)
  }

  /** No phi lands in the entry: it is in no frontier. */
  lemma EntryHasNoPhi(g: Graph, blocks: seq<seq<Instr>>, domfr: seq<set<nat>>, stores: seq<seq<nat>>, heads: seq<seq<nat>>, n: nat)
    requires EntryHasNoPred(g) && ValidFrontiers(domfr) && HeadsPlaced(g, blocks, domfr, stores, heads, n)
    ensures heads[0] == []
  {
    forall v: nat | v < n
      ensures v !in heads[0]
    {
      var s := Blocks(|domfr|) - {0};
      assert FrontierClosed(domfr, stores[v], s) by {
        forall x: nat | x < |domfr|
          ensures 0 !in domfr[x]
        {
          assert forall p: nat :: !EndsAt(g, x, p, 0);
        }
      }
      assert 0 !in s;
    }
    if heads[0] != [] {
      HasMember(heads[0]);
    }
  }

  lemma HasMember(s: seq<nat>)
    requires s != []
    ensures exists v: nat :: v in s
  {
    assert s[0] in s;
  }

  lemma EntryHasNoFrontier(g: Graph, b: nat)
    requires EntryHasNoPred(g)
    ensures !InFrontier(g, 0, b)
  {
    forall p: nat
      ensures !EndsAt(g, 0, p, b)
    {
      EntryDominates(g, b);
    }
  }

  lemma MembersOfPromoted(blocks: seq<seq<Instr>>, heads: seq<seq<nat>>, n: nat, b: nat, inst: Instr)
    requires |heads| == |blocks| && b < |blocks|
    ensures inst in Promoted(blocks, heads, n)[b] <==>
            inst in blocks[b] || (inst.Phi? && inst.v in heads[b]) || (b == 0 && inst.InitLoad? && inst.v < n)
  {
    var phis, inits := PhisFor(heads[b]), InitLoads(n);
    assert inst in phis <==> inst.Phi? && inst.v in heads[b] by {
      if inst.Phi? && inst.v in heads[b] {
        var k :| 0 <= k < |heads[b]| && heads[b][k] == inst.v;
        assert phis[k] == inst;
      }
    }
    assert inst in inits <==> inst.InitLoad? && inst.v < n by {
      if inst.InitLoad? && inst.v < n {
        assert inits[inst.v] == inst;
      }
    }
  }

  /** A block of the promoted code defines `v` only by a store, a phi, or the initial load. */
  lemma DefinedOnlyBy(blocks: seq<seq<Instr>>, heads: seq<seq<nat>>, n: nat, v: nat, b: nat)
    requires |heads| == |blocks| && b < |blocks| && Unpromoted(blocks) && v < n
    ensures DefinedIn(Promoted(blocks, heads, n), v, b) <==> Store(v) in blocks[b] || v in heads[b] || b == 0
  {
    var code := Promoted(blocks, heads, n)[b];
    MembersOfPromoted(blocks, heads, n, b, Store(v));
    MembersOfPromoted(blocks, heads, n, b, Phi(v));
    MembersOfPromoted(blocks, heads, n, b, InitLoad(v));
    if DefinedIn(Promoted(blocks, heads, n), v, b) {
      var k := LastDef(code, v).value;
      assert code[k] in code && (code[k] == Store(v) || code[k] == Phi(v) || code[k] == InitLoad(v));
    }
  }

  /** The placed phis and initial loads meet everything the reaching definitions rely on. */
  lemma PlacementSuffices(g: Graph, blocks: seq<seq<Instr>>, domfr: seq<set<nat>>, stores: seq<seq<nat>>, heads: seq<seq<nat>>, n: nat)
    requires ValidGraph(g) && EntryHasNoPred(g) && ValidFrontiers(domfr) && Unpromoted(blocks)
    requires HeadsPlaced(g, blocks, domfr, stores, heads, n)
    ensures AllPhisPlaced(g, Promoted(blocks, heads, n), n)
  {
    var code: seq<seq<Instr>> := Promoted(blocks, heads, n);
    forall v: nat | v < n
      ensures PhisPlaced(g, code, v)
    {
      DefinedOnlyBy(blocks, heads, n, v, 0);
      forall x: nat, b: nat | DefinedIn(code, v, x) && b < |code| && InFrontier(g, x, b)
        ensures Phi(v) in code[b]
      {
        DefinedOnlyBy(blocks, heads, n, v, x);
        if x == 0 {
          EntryHasNoFrontier(g, b);
        }
        InFrontierOfDefinition(domfr, stores[v], x, b);
        MembersOfPromoted(blocks, heads, n, b, Phi(v));
      }
    }
  }

  lemma InFrontierOfDefinition(domfr: seq<set<nat>>, stores: seq<nat>, x: nat, b: nat)
    requires x < |domfr| && b in domfr[x] && (x in stores || InIteratedFrontier(domfr, stores, x))
    ensures InIteratedFrontier(domfr, stores, b)
  {
  }

  /** A definition of the variable has the block in its frontier. */
  ghost predicate NeededAt(g: Graph, blocks: seq<seq<Instr>>, v: nat, b: nat) {
    exists x: nat :: DefinedIn(blocks, v, x) && InFrontier(g, x, b)
  }

  /** No phi is placed without need. */
  ghost predicate PhisNeeded(g: Graph, blocks: seq<seq<Instr>>) {
    forall b: nat, k: nat :: b < |blocks| && k < |blocks[b]| && blocks[b][k].Phi? ==> NeededAt(g, blocks, blocks[b][k].v, b)
  }

  /** No block has two phis of one variable. */
  ghost predicate OnePhiEach(heads: seq<seq<nat>>) {
    forall b: nat, v: nat :: b < |heads| ==> multiset(heads[b])[v] <= 1
  }

  lemma OnceEach(domfr: seq<set<nat>>, stores: seq<seq<nat>>, heads: seq<seq<nat>>)
    requires ValidFrontiers(domfr) && |heads| == |domfr|
    requires forall v: nat, b: nat :: v < |stores| && b < |heads| ==> multiset(heads[b])[v] == if InIteratedFrontier(domfr, stores[v], b) then 1 else 0
    requires forall v: nat, b: nat :: b < |heads| && v in heads[b] ==> v < |stores|
    ensures OnePhiEach(heads)
  {
    forall b: nat, v: nat | b < |heads|
      ensures multiset(heads[b])[v] <= 1
    {
      if v < |stores| {
        assert multiset(heads[b])[v] == if InIteratedFrontier(domfr, stores[v], b) then 1 else 0;
      } else {
        assert v !in heads[b];
      }
    }
  }

  /** What is in the iterated frontier is there because of a store, or of another block in it. */
  lemma FrontierReason(domfr: seq<set<nat>>, stores: seq<nat>, b: nat) returns (x: nat)
    requires ValidFrontiers(domfr) && InIteratedFrontier(domfr, stores, b)
    ensures x < |domfr| && b in domfr[x] && (x in stores || InIteratedFrontier(domfr, stores, x))
  {
    var s := set c: nat | c in Blocks(|domfr|) && exists y: nat :: FrontierOf(domfr, stores, y, c);
    assert FrontierClosed(domfr, stores, s) by {
      forall y: nat, c: nat | y < |domfr| && (y in stores || y in s) && c in domfr[y]
        ensures c in s
      {
        if y in s {
          var z: nat :| FrontierOf(domfr, stores, z, y);
          InFrontierOfDefinition(domfr, stores, z, y);
        }
        assert FrontierOf(domfr, stores, y, c);
      }
    }
    x :| FrontierOf(domfr, stores, x, b);
  }

  ghost predicate FrontierOf(domfr: seq<set<nat>>, stores: seq<nat>, y: nat, c: nat) {
    y < |domfr| && c in domfr[y] && (y in stores || InIteratedFrontier(domfr, stores, y))
  }

  lemma PlacedAsNeeded(g: Graph, blocks: seq<seq<Instr>>, domfr: seq<set<nat>>, stores: seq<seq<nat>>, heads: seq<seq<nat>>, n: nat)
    requires EntryHasNoPred(g) && ValidFrontiers(domfr) && Unpromoted(blocks) && HeadsPlaced(g, blocks, domfr, stores, heads, n)
    ensures PhisNeeded(g, Promoted(blocks, heads, n))
  {
    var code: seq<seq<Instr>> := Promoted(blocks, heads, n);
    forall b: nat, k: nat | b < |code| && k < |code[b]| && code[b][k].Phi?
      ensures NeededAt(g, code, code[b][k].v, b)
    {
      var v := code[b][k].v;
      MembersOfPromoted(blocks, heads, n, b, Phi(v));
      assert code[b][k] in code[b] && Phi(v) !in blocks[b];
      var x := FrontierReason(domfr, stores[v], b);
      DefinedOnlyBy(blocks, heads, n, v, x);
      assert DefinedIn(code, v, x) && InFrontier(g, x, b);
    }
  }

  lemma PromotedShape(g: Graph, blocks: seq<seq<Instr>>, domfr: seq<set<nat>>, stores: seq<seq<nat>>, heads: seq<seq<nat>>, n: nat)
    requires EntryHasNoPred(g) && ValidFrontiers(domfr) && Unpromoted(blocks) && HeadsPlaced(g, blocks, domfr, stores, heads, n)
    ensures PhisFirst(Promoted(blocks, heads, n)) && PhisArePromoted(Promoted(blocks, heads, n), n)
    ensures forall v: nat :: v < n ==> EntryDefinesFirst(Promoted(blocks, heads, n), v)
  {
    EntryHasNoPhi(g, blocks, domfr, stores, heads, n);
    var code: seq<seq<Instr>> := Promoted(blocks, heads, n);
    forall b: nat, k: nat | b < |code| && k < |code[b]|
      ensures code[b][k].Phi? <==> k < |heads[b]|
      ensures code[b][k].Phi? ==> code[b][k].v < n
    {
      if k < |heads[b]| {
        assert code[b][k] == Phi(heads[b][k]) && heads[b][k] in heads[b];
      } else if b == 0 {
        assert code[0] == InitLoads(n) + blocks[0];
      } else {
        assert code[b][k] == blocks[b][k - |heads[b]|];
      }
    }
    assert code[0] == InitLoads(n) + blocks[0];
    forall v: nat, i | v < n && 0 <= i < |code[0]| && code[0][i] == Load(v)
      ensures LastDef(code[0][..i], v).Some?
    {
      assert i >= n && code[0][..i][v] == InitLoad(v);
    }
  }

  /** Load `i` of block `b` reads what definition `s` left, on every path to it. */
  ghost predicate AnsweredAt(g: Graph, blocks: seq<seq<Instr>>, b: nat, i: nat, s: Site)
    requires ValidCode(g, blocks) && b < |blocks| && i < |blocks[b]| && blocks[b][i].Load?
  {
    forall p :: PathBetween(g, p, 0, b) ==> LastBefore(blocks, blocks[b][i].v, p, i) == Some(s)
  }

  /** Every load of a promoted variable in block `b` has a definition, the last one executed on every path. */
  ghost predicate LoadsAnswered(g: Graph, blocks: seq<seq<Instr>>, n: nat, b: nat, source: map<nat, Site>)
    requires ValidCode(g, blocks)
  {
    b < |blocks| && forall i: nat :: i < |blocks[b]| && blocks[b][i].Load? && blocks[b][i].v < n ==>
      i in source && AnsweredAt(g, blocks, b, i, source[i])
  }

  /** Every phi of block `b` takes exactly the definitions that arrive there. */
  ghost predicate PhisFilled(g: Graph, blocks: seq<seq<Instr>>, b: nat, phi: map<nat, set<Site>>)
    requires ValidCode(g, blocks)
  {
    && b < |blocks|
    && (forall i: nat :: i in phi <==> i < |blocks[b]| && blocks[b][i].Phi?)
    && (forall i: nat, s: Site :: i in phi && i < |blocks[b]| && blocks[b][i].Phi? ==> (s in phi[i] <==> EntersBlock(g, blocks, blocks[b][i].v, s, b)))
  }

  /** What the answers mean on every run: a load in memory reads the value of the definition that answers it. */
  lemma LoadsKeepMeaning(g: Graph, blocks: seq<seq<Instr>>, n: nat, b: nat, source: map<nat, Site>, i: nat, p: seq<nat>, st: State, input: nat -> int)
    requires ValidCode(g, blocks) && AllPhisPlaced(g, blocks, n) && PhisArePromoted(blocks, n) && LoadsAnswered(g, blocks, n, b, source)
    requires i < |blocks[b]| && blocks[b][i].Load? && blocks[b][i].v < n && PathBetween(g, p, 0, b) && st.last == map[]
    ensures i in source
    ensures var v, now := blocks[b][i].v, RunCode(blocks[b], b, i, RunPath(blocks, p[..|p| - 1], st, input), input);
            v in now.mem && source[i] in now.val && now.mem[v] == now.val[source[i]]
  {
    assert AnsweredAt(g, blocks, b, i, source[i]);
    PromotionIsCorrect(g, blocks, n, p, i, source[i], st, input);
  }

  /**
   All stages. In the promoted code every load of a promoted variable has a definition,
   the same one on every path to it, and every phi takes exactly the definitions
   that arrive at its block.
   */
  method RunOnFunction(g: Graph, preds: seq<seq<nat>>, blocks0: seq<seq<Instr>>, n: nat)
    returns (heads: seq<seq<nat>>, blocks: seq<seq<Instr>>, sources: seq<map<nat, Site>>, phis: seq<map<nat, set<Site>>>, ghost idom: seq<nat>)
    requires PredsOf(g, preds) && AllReachable(g) && EntryHasNoPred(g) && Unpromoted(blocks0) && |blocks0| == |g.succs|
    ensures ValidCode(g, blocks) && |sources| == |phis| == |blocks| && IdomsOf(g, idom)
    ensures |heads| == |blocks0| && blocks == Promoted(blocks0, heads, n) && OnePhiEach(heads)
    ensures AllPhisPlaced(g, blocks, n) && PhisArePromoted(blocks, n) && PhisNeeded(g, blocks)
    ensures forall b: nat :: b < |blocks| ==> LoadsAnswered(g, blocks, n, b, sources[b]) && PhisFilled(g, blocks, b, phis[b])
  {
    var dominators := DominatorSolver.ComputeDominators(g, preds);
    var domfr := ComputeFrontiers(g, preds, dominators);
    var stores: seq<seq<nat>> := [];
    while |stores| < n
      invariant |stores| <= n
      invariant forall v: nat, b: nat :: v < |stores| && b in stores[v] ==> b < |domfr|
      invariant forall v: nat, b: nat :: v < |stores| ==> (b in stores[v] <==> b < |blocks0| && Store(v) in blocks0[b])
    {
      var s := StoreBlocks(blocks0, |stores|);
      stores := stores + [s];
    }
    heads := PlaceAllPhis(domfr, stores);
    OnceEach(domfr, stores, heads);
    blocks := Promoted(blocks0, heads, n);
    PlacementSuffices(g, blocks0, domfr, stores, heads, n);
    PromotedShape(g, blocks0, domfr, stores, heads, n);
    PlacedAsNeeded(g, blocks0, domfr, stores, heads, n);
    var order := DepthFirstOrder(g);
    var reach := ComputeReaching(g, blocks, n, order, dominators);
    sources, phis := RewriteAll(g, blocks, n, dominators, reach);
    idom := dominators;
  }

  /** Rewrite the loads of all blocks and fill in all phis. */
  method RewriteAll(ghost g: Graph, blocks: seq<seq<Instr>>, n: nat, ghost idom: seq<nat>, reach: seq<DefineListTable>)
    returns (sources: seq<map<nat, Site>>, phis: seq<map<nat, set<Site>>>)
    requires ValidCode(g, blocks) && AllReachable(g) && EntryHasNoPred(g) && AllPhisPlaced(g, blocks, n) && IdomsOf(g, idom)
    requires PhisFirst(blocks) && PhisArePromoted(blocks, n) && CollectsExactly(g, blocks, n, reach)
    requires forall v: nat :: v < n ==> EntryDefinesFirst(blocks, v)
    ensures |sources| == |phis| == |blocks|
    ensures forall b: nat :: b < |blocks| ==> LoadsAnswered(g, blocks, n, b, sources[b]) && PhisFilled(g, blocks, b, phis[b])
  {
    sources, phis := [], [];
    while |sources| < |blocks|
      invariant |sources| == |phis| <= |blocks|
      invariant forall b: nat :: b < |sources| ==> LoadsAnswered(g, blocks, n, b, sources[b]) && PhisFilled(g, blocks, b, phis[b])
    {
      var b := |sources|;
      var source, phi := RewriteBlock(blocks[b], b, n, reach[b]);
      forall i: nat | i < |blocks[b]| && blocks[b][i].Load? && blocks[b][i].v < n
        ensures i in source && AnsweredAt(g, blocks, b, i, source[i])
      {
        LoadSource(g, blocks, n, idom, reach, b, i, if i in source then source[i] else Site(0, 0));
        assert HasSource(blocks[b], n, reach[b], i);
        assert i in source;
      }
      sources, phis := sources + [source], phis + [phi];
    }
  }
}
