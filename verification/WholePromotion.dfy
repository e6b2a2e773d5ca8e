/**
 Promotion of whole functions, operands included: phis and initial loads are placed, every use of
 a load is reset, and what is not used any more is dropped. What the other instructions see stays the same on every path.
 */
module WholePromotion {
  import opened Digraph
  import opened DominanceFrontier
  import F = InBlockForwarding
  import L = PromotedLoads
  import M = MemoryToRegister
  import opened Options
  import PhiArguments
  import opened PromotedCode
  import opened PromotedProofs
  import opened PromotedRuns
  import opened ReachingDefinitions
  import opened SiteOrder

  // ---- the code with phis and initial loads ----

  function Kept(code: seq<F.Ins>): (r: seq<Full>)
    ensures |r| == |code| && forall k :: 0 <= k < |r| ==> r[k] == Old(code[k])
  {
    seq(|code|, k requires 0 <= k < |code| => Old(code[k]))
  }

  /** The function before promotion. */
  function KeptAll(code0: seq<seq<F.Ins>>): (r: FullCode)
    ensures |r| == |code0| && forall b :: 0 <= b < |r| ==> r[b] == Kept(code0[b])
  {
    seq(|code0|, b requires 0 <= b < |code0| => Kept(code0[b]))
  }

  function NewPhis(vars: seq<nat>): (r: seq<Full>)
    ensures |r| == |vars| && forall k :: 0 <= k < |vars| ==> r[k] == NewPhi(vars[k])
  {
    seq(|vars|, k requires 0 <= k < |vars| => NewPhi(vars[k]))
  }

  function NewInits(n: nat): (r: seq<Full>)
    ensures |r| == n && forall k :: 0 <= k < n ==> r[k] == NewInit(k)
  {
    seq(n, k requires 0 <= k < n => NewInit(k))
  }

  /** What is placed at the head of block `b`. */
  function News(heads: seq<seq<nat>>, n: nat, b: nat): seq<Full>
    requires b < |heads|
  {
    NewPhis(heads[b]) + (if b == 0 then NewInits(n) else [])
  }

  function Placed(code0: seq<seq<F.Ins>>, heads: seq<seq<nat>>, n: nat): (r: FullCode)
    requires |heads| == |code0|
    ensures |r| == |code0| && forall b :: 0 <= b < |r| ==> r[b] == News(heads, n, b) + Kept(code0[b])
  {
    seq(|code0|, b requires 0 <= b < |code0| => News(heads, n, b) + Kept(code0[b]))
  }

  lemma PlacedShapes(code0: seq<seq<F.Ins>>, heads: seq<seq<nat>>, n: nat)
    requires |heads| == |code0|
    ensures Shapes(Placed(code0, heads, n)) == M.Promoted(Shapes(KeptAll(code0)), heads, n)
  {
    var a, c := Shapes(Placed(code0, heads, n)), M.Promoted(Shapes(KeptAll(code0)), heads, n);
    forall b: nat | b < |code0|
      ensures a[b] == c[b]
    {
      var x := BlockShapes(Kept(code0[b]));
      assert Shapes(KeptAll(code0))[b] == x;
      assert c[b] == M.PhisFor(heads[b]) + (if b == 0 then M.InitLoads(n) else []) + x;
      var y := News(heads, n, b) + Kept(code0[b]);
      assert a[b] == BlockShapes(y);
      forall k: nat | k < |y|
        ensures Shape(y[k]) == c[b][k]
      {
      }
    }
  }

  /** Instruction `x` of the new code is an old one; this is where it was. */
  function Before0(heads: seq<seq<nat>>, n: nat, x: Site): int
    requires x.block < |heads|
  {
    x.index - |News(heads, n, x.block)|
  }

  lemma PlacedAt(code0: seq<seq<F.Ins>>, heads: seq<seq<nat>>, n: nat, x: Site)
    requires |heads| == |code0| && InCode(Placed(code0, heads, n), x)
    ensures x.block < |heads|
    ensures var k, i := Before0(heads, n, x), At(Placed(code0, heads, n), x);
            if k >= 0 then k < |code0[x.block]| && i == Old(code0[x.block][k]) else !i.Old?
  {
  }

  /** Strict SSA form stays when instructions without operands are placed at the heads of blocks. */
  lemma PlacedStrict(g: Graph, code0: seq<seq<F.Ins>>, heads: seq<seq<nat>>, n: nat)
    requires |heads| == |code0| && StrictSsa(g, KeptAll(code0))
    ensures StrictSsa(g, Placed(code0, heads, n))
  {
    var code, old0 := Placed(code0, heads, n), KeptAll(code0);
    forall x, y, r: nat | AssignsAt(code, x, r) && AssignsAt(code, y, r)
      ensures x == y
    {
      PlacedAt(code0, heads, n, x);
      PlacedAt(code0, heads, n, y);
      var i, j := Before0(heads, n, x), Before0(heads, n, y);
      assert AssignsAt(old0, Site(x.block, i), r) && AssignsAt(old0, Site(y.block, j), r);
    }
    forall x, u, r: nat | AssignsAt(code, x, r) && UsesAt(code, u, r)
      ensures SiteDom(g, x, u)
    {
      PlacedAt(code0, heads, n, x);
      PlacedAt(code0, heads, n, u);
      var i, j := Before0(heads, n, x), Before0(heads, n, u);
      assert AssignsAt(old0, Site(x.block, i), r) && UsesAt(old0, Site(u.block, j), r);
    }
  }

  // ---- runs of the function before promotion ----

  /** Run the blocks of a path from beginning to end. */
  ghost function RunBlocks(code0: seq<seq<F.Ins>>, p: seq<nat>, st: F.State, f: F.Effect): F.State
    requires forall k :: 0 <= k < |p| ==> p[k] < |code0|
  {
    if p == [] then st
    else
      var b := p[|p| - 1];
      F.Exec(code0[b], {}, |code0[b]|, RunBlocks(code0, p[..|p| - 1], st, f), f)
  }

  /** What is placed at the head of a block leaves registers and memory alone. */
  lemma {:induction false} BlockThrough(code: seq<F.Ins>, news: seq<Full>, b: nat, i: nat, t: Track, f: F.Effect)
    requires i <= |news| + |code| && forall k :: 0 <= k < |news| ==> !news[k].Old?
    ensures ThroughBlock(news + Kept(code), b, i, t, f).st == F.Exec(code, {}, if i <= |news| then 0 else i - |news|, t.st, f)
  {
    if i > 0 {
      BlockThrough(code, news, b, i - 1, t, f);
      assert (news + Kept(code))[i - 1] == if i <= |news| then news[i - 1] else Old(code[i - 1 - |news|]);
    }
  }

  lemma {:induction false} PathThrough(code0: seq<seq<F.Ins>>, heads: seq<seq<nat>>, n: nat, p: seq<nat>, t: Track, f: F.Effect)
    requires |heads| == |code0| && OnCode(Placed(code0, heads, n), p)
    ensures ThroughPath(Placed(code0, heads, n), p, t, f).st == RunBlocks(code0, p, t.st, f)
  {
    if p != [] {
      var b, q := p[|p| - 1], p[..|p| - 1];
      PathThrough(code0, heads, n, q, t, f);
      BlockThrough(code0[b], News(heads, n, b), b, |News(heads, n, b)| + |code0[b]|, ThroughPath(Placed(code0, heads, n), q, t, f), f);
    }
  }

  // ---- what the earlier steps provide ----

  /** The definition that answers a load dominates it. */
  lemma SourceDominates(g: Graph, code: FullCode, b: nat, i: nat, s: Site)
    requires ValidCode(g, Shapes(code)) && Reachable(g, b) && b < |code| && i < |code[b]| && IsLoad(code[b][i])
    requires M.AnsweredAt(g, Shapes(code), b, i, s)
    ensures InCode(code, s) && IsDefinition(At(code, s)) && SiteDom(g, s, Site(b, i))
  {
    var shapes, v := Shapes(code), code[b][i].ins.v;
    assert shapes[b][i] == Load(v);
    var p0 :| PathBetween(g, p0, 0, b);
    var p := FirstVisit(g, p0, b);
    assert L.LastBefore(shapes, v, p, i) == Some(s);
    var own := LastDef(shapes[b][..i], v);
    if own.Some? {
      assert shapes[b][..i][own.value] == shapes[b][own.value];
    } else {
      ReachingAt(shapes, v, p[..|p| - 1], s);
      assert s.block in p[..|p| - 1];
      forall q | PathBetween(g, q, 0, b)
        ensures s.block in q
      {
        assert L.LastBefore(shapes, v, q, i) == Some(s);
        ReachingAt(shapes, v, q[..|q| - 1], s);
        assert q[LastFull(q[..|q| - 1], s.block)] == s.block;
      }
    }
  }

  lemma SourcesAnswer(g: Graph, code: FullCode, n: nat, sources: seq<map<nat, Site>>)
    requires ValidCode(g, Shapes(code)) && AllReachable(g) && |sources| == |code|
    requires forall x: Site, v: nat :: InCode(code, x) && Concerns(At(code, x), v) ==> v < n
    requires forall b: nat :: b < |code| ==> M.LoadsAnswered(g, Shapes(code), n, b, sources[b])
    ensures Answered(g, code, sources)
    ensures forall b: nat, k: nat :: b < |code| && k < |code[b]| && IsLoad(code[b][k]) ==>
              k in sources[b] && M.AnsweredAt(g, Shapes(code), b, k, sources[b][k])
  {
    forall b: nat, k: nat | b < |code| && k < |code[b]| && IsLoad(code[b][k])
      ensures k in sources[b] && M.AnsweredAt(g, Shapes(code), b, k, sources[b][k])
      ensures AnsweredBy(g, code, sources, b, k)
    {
      var v := code[b][k].ins.v;
      assert Concerns(At(code, Site(b, k)), v) && Shapes(code)[b][k] == Load(v);
      assert M.LoadsAnswered(g, Shapes(code), n, b, sources[b]);
      SourceDominates(g, code, b, k, sources[b][k]);
    }
  }

  /** All variables that stores and loads mention are promoted. */
  ghost predicate OnlyPromoted(code0: seq<seq<F.Ins>>, n: nat) {
    forall b: nat, k: nat :: b < |code0| && k < |code0[b]| && !code0[b][k].Op? ==> code0[b][k].v < n
  }

  lemma NoHead(code0: seq<seq<F.Ins>>, heads: seq<seq<nat>>, n: nat)
    requires |heads| == |code0| > 0 && forall k: nat :: k < |Placed(code0, heads, n)[0]| ==> !Placed(code0, heads, n)[0][k].NewPhi?
    ensures heads[0] == []
  {
    if heads[0] != [] {
      HeadFirst(code0, heads, n);
    }
  }

  lemma HeadFirst(code0: seq<seq<F.Ins>>, heads: seq<seq<nat>>, n: nat)
    requires |heads| == |code0| > 0 && heads[0] != []
    ensures |Placed(code0, heads, n)[0]| > 0 && Placed(code0, heads, n)[0][0].NewPhi?
  {
  }

  lemma PlacedWell(g: Graph, code0: seq<seq<F.Ins>>, heads: seq<seq<nat>>, n: nat)
    requires |heads| == |code0| > 0 && OnlyPromoted(code0, n)
    requires L.PhisArePromoted(Shapes(Placed(code0, heads, n)), n)
    ensures WellPlaced(Placed(code0, heads, n), n)
  {
    var code := Placed(code0, heads, n);
    var shapes := Shapes(code);
    forall b: nat, k: nat | b < |code| && k < |code[b]|
      ensures code[b][k].NewPhi? <==> k < |heads[b]|
      ensures shapes[b][k] == Shape(code[b][k])
      ensures code[b][k].NewPhi? ==> code[b][k].v < n && b != 0
      ensures code[b][k].NewInit? ==> b == 0 && |heads[b]| <= k < |heads[b]| + n && code[b][k].v == k - |heads[b]|
      ensures forall v: nat :: Concerns(code[b][k], v) ==> v < n
    {
      PlacedAt(code0, heads, n, Site(b, k));
    }
    NoHead(code0, heads, n);
    forall x: Site | InCode(code, x) && At(code, x).NewInit?
      ensures InitFirst(code, x)
    {
      forall k | 0 <= k < x.index
        ensures code[0][k] == NewInit(k) && !Defines(BlockShapes(code[0])[..x.index][k], At(code, x).v)
      {
        assert code[0][k] == NewInits(n)[k];
      }
    }
  }

  // ---- cleaning up ----

  /** The value of new instruction `s` is used: as an operand, or by a phi that is still there. */
  predicate HasUses(code: FullCode, slots: Slots, phis: seq<map<nat, set<Site>>>, gone: set<Site>, s: Site)
    requires SlotsFit(code, slots) && |phis| == |code|
    requires forall b, k, d :: 0 <= b < |code| && k in phis[b] && d in phis[b][k] ==> InCode(code, d)
  {
    || (exists b, k, j :: 0 <= b < |slots| && 0 <= k < |slots[b]| && 0 <= j < |slots[b][k]| && slots[b][k][j] == Made(s))
    || (exists b :: 0 <= b < |phis| && exists k :: k in phis[b] && Site(b, k) !in gone && exists d :: d in phis[b][k] && Entry(code, slots, d) == Made(s))
  }

  /** Nothing that is still there uses what is gone. */
  ghost predicate NotUsed(r: Result)
    requires Fits(r)
  {
    forall s :: s in r.gone ==> !HasUses(r.code, r.slots, r.phis, r.gone, s)
  }

  lemma NotUsedUnneeded(r: Result)
    requires Fits(r) && NotUsed(r)
    ensures Unneeded(r)
  {
    forall b: nat, k: nat, s | b < |r.code| && k in r.phis[b] && Site(b, k) !in r.gone && s in r.phis[b][k]
      ensures !ArgGone(r, Entry(r.code, r.slots, s))
    {
      StaysIfUsed(r, Entry(r.code, r.slots, s));
    }
    forall b: nat, k: nat, j: nat | b < |r.code| && k < |r.code[b]| && j < |r.slots[b][k]|
      ensures !ArgGone(r, r.slots[b][k][j])
    {
      StaysIfUsed(r, r.slots[b][k][j]);
    }
  }

  lemma StaysIfUsed(r: Result, a: Arg)
    requires Fits(r) && NotUsed(r) && (a.Made? ==> HasUses(r.code, r.slots, r.phis, r.gone, a.s))
    ensures !ArgGone(r, a)
  {
  }

  /** No operand is the value of new instruction `s`. */
  ghost predicate NoSlotHas(slots: Slots, s: Site) {
    forall b, k, j :: 0 <= b < |slots| && 0 <= k < |slots[b]| && 0 <= j < |slots[b][k]| ==> slots[b][k][j] != Made(s)
  }

  /** The phis that have the value of `s` as an argument are among `some`. */
  ghost predicate OnlyPhisHave(code: FullCode, slots: Slots, phis: seq<map<nat, set<Site>>>, some: set<Site>, s: Site)
    requires Fits(Result(code, slots, phis, {}))
  {
    forall b: nat, k, d :: b < |phis| && k in phis[b] && d in phis[b][k] && Entry(code, slots, d) == Made(s) ==> Site(b, k) in some
  }

  lemma UsesAre(code: FullCode, slots: Slots, phis: seq<map<nat, set<Site>>>, gone: set<Site>, s: Site)
    requires Fits(Result(code, slots, phis, {}))
    ensures HasUses(code, slots, phis, gone, s) <==> !(NoSlotHas(slots, s) && OnlyPhisHave(code, slots, phis, gone, s))
  {
  }

  function Among(gone: set<Site>, seen: seq<Site>): set<Site> {
    set s | s in gone && s in seen
  }

  ghost predicate NoDuplicates(news: seq<Site>) {
    forall i, j :: 0 <= i < j < |news| ==> news[i] != news[j]
  }

  /** `news[i]` is dropped exactly if it has no use when those before it that are to be dropped are gone. */
  ghost predicate DroppedInTurn(code: FullCode, slots: Slots, phis: seq<map<nat, set<Site>>>, gone: set<Site>, news: seq<Site>, i: nat)
    requires Fits(Result(code, slots, phis, {})) && i < |news|
  {
    news[i] in gone <==> NoSlotHas(slots, news[i]) && OnlyPhisHave(code, slots, phis, Among(gone, news[..i]), news[i])
  }

  /** Look at the new instructions in turn, and drop those that have no uses any more. */
  method CleanUp(code: FullCode, slots: Slots, phis: seq<map<nat, set<Site>>>, news: seq<Site>) returns (gone: set<Site>)
    requires Fits(Result(code, slots, phis, {}))
    ensures forall s :: s in gone ==> s in news
    ensures Fits(Result(code, slots, phis, gone)) && NotUsed(Result(code, slots, phis, gone))
    ensures forall s :: s in news && NoSlotHas(slots, s) && OnlyPhisHave(code, slots, phis, {}, s) ==> s in gone
    ensures NoDuplicates(news) ==> forall i: nat :: i < |news| ==> DroppedInTurn(code, slots, phis, gone, news, i)
  {
    hide HasUses, NoSlotHas, OnlyPhisHave;
    gone := {};
    for i := 0 to |news|
      invariant forall s :: s in gone ==> s in news[..i]
      invariant NotUsed(Result(code, slots, phis, gone))
      invariant forall s :: s in news[..i] && NoSlotHas(slots, s) && OnlyPhisHave(code, slots, phis, {}, s) ==> s in gone
      invariant NoDuplicates(news) ==> forall j: nat :: j < i ==> DroppedInTurn(code, slots, phis, gone, news, j)
    {
      ghost var before := gone;
      UsesAre(code, slots, phis, gone, news[i]);
      FewerUses(code, slots, phis, {}, gone, news[i]);
      UsesAre(code, slots, phis, {}, news[i]);
      if !HasUses(code, slots, phis, gone, news[i]) {
        forall s
          ensures !HasUses(code, slots, phis, gone, s) ==> !HasUses(code, slots, phis, gone + {news[i]}, s)
        {
          FewerUses(code, slots, phis, gone, gone + {news[i]}, s);
        }
        gone := gone + {news[i]};
      }
      assert news[..i + 1] == news[..i] + [news[i]];
      if NoDuplicates(news) {
        forall j: nat | j < i + 1
          ensures DroppedInTurn(code, slots, phis, gone, news, j)
        {
          assert Among(gone, news[..j]) == Among(before, news[..j]);
          assert j < i ==> DroppedInTurn(code, slots, phis, before, news, j);
          assert Among(before, news[..i]) == before;
        }
      }
    }
    assert news[..|news|] == news;
  }

  lemma FewerUses(code: FullCode, slots: Slots, phis: seq<map<nat, set<Site>>>, few: set<Site>, gone: set<Site>, s: Site)
    requires Fits(Result(code, slots, phis, {})) && few <= gone
    ensures !HasUses(code, slots, phis, few, s) ==> !HasUses(code, slots, phis, gone, s)
  {
  }

  // ---- the new instructions ----

  predicate IsNew(i: Full, phi: bool) {
    if phi then i.NewPhi? else i.NewInit?
  }

  /** All new phis, or all new loads, that are not in the list yet. */
  method AddNews(code: FullCode, list: seq<Site>, phi: bool) returns (news: seq<Site>)
    requires NoDuplicates(list)
    ensures list <= news && NoDuplicates(news)
    ensures forall s :: s in news <==> s in list || (InCode(code, s) && IsNew(At(code, s), phi))
  {
    news := list;
    for b := 0 to |code|
      invariant list <= news && NoDuplicates(news)
      invariant forall s :: s in news <==> s in list || (InCode(code, s) && s.block < b && IsNew(At(code, s), phi))
    {
      for k := 0 to |code[b]|
        invariant list <= news && NoDuplicates(news)
        invariant forall s :: s in news <==>
                    s in list || (InCode(code, s) && (s.block < b || (s.block == b && s.index < k)) && IsNew(At(code, s), phi))
      {
        if IsNew(code[b][k], phi) && Site(b, k) !in news {
          news := news + [Site(b, k)];
        }
      }
    }
  }

  /** The list contains every new instruction once, the phis first, and these in the given order if it is one. */
  ghost predicate ListsNews(code: FullCode, order: seq<Site>, news: seq<Site>) {
    && NoDuplicates(news)
    && (forall s :: s in news <==> InCode(code, s) && !At(code, s).Old?)
    && (forall i, j :: 0 <= i < j < |news| && At(code, news[j]).NewPhi? ==> At(code, news[i]).NewPhi?)
    && (NoDuplicates(order) && (forall s :: s in order ==> InCode(code, s) && At(code, s).NewPhi?) ==> order <= news)
  }

  /** In which order the new instructions are looked at: `order` is that of the phis as far as it lists them. */
  method ListNews(code: FullCode, order: seq<Site>) returns (news: seq<Site>)
    ensures ListsNews(code, order, news)
  {
    var first: seq<Site> := [];
    for i := 0 to |order|
      invariant NoDuplicates(first) && forall s :: s in first ==> s in order[..i] && InCode(code, s) && At(code, s).NewPhi?
      invariant NoDuplicates(order) && (forall s :: s in order ==> InCode(code, s) && At(code, s).NewPhi?) ==> first == order[..i]
    {
      assert order[..i + 1] == order[..i] + [order[i]];
      if InCode(code, order[i]) && At(code, order[i]).NewPhi? && order[i] !in first {
        first := first + [order[i]];
      }
    }
    assert order[..|order|] == order;
    var phis := AddNews(code, first, true);
    news := AddNews(code, phis, false);
    PhisLead(code, phis, news);
  }

  lemma PhisLead(code: FullCode, phis: seq<Site>, news: seq<Site>)
    requires phis <= news && NoDuplicates(news)
    requires forall s :: s in phis ==> InCode(code, s) && At(code, s).NewPhi?
    requires forall s :: s in news ==> s in phis || (InCode(code, s) && At(code, s).NewInit?)
    ensures forall i, j :: 0 <= i < j < |news| && At(code, news[j]).NewPhi? ==> At(code, news[i]).NewPhi?
  {
    forall i, j | 0 <= i < j < |news| && At(code, news[j]).NewPhi?
      ensures At(code, news[i]).NewPhi?
    {
      assert news[j] in news;
      var k :| 0 <= k < |phis| && phis[k] == news[j];
      assert news[k] == phis[k];
      assert news[i] == phis[i];
    }
  }

  // ---- the pass ----

  /** The uses that are left are not of loads. */
  ghost predicate NoLoadUsed(r: Result) {
    forall b, k, j, l :: 0 <= b < |r.slots| && 0 <= k < |r.slots[b]| && 0 <= j < |r.slots[b][k]| ==> !UsesLoad(r.code, l, r.slots[b][k][j])
  }

  /**
   The whole pass. Along every path from the entry, from every state and for every behaviour of the other
   instructions, these see the same operand values before and after, although nothing is stored or
   loaded any more. No use of a load is left, and no use of a phi or initial load that has been dropped; every phi
   has two arguments or more. At the head of each block there is at most one phi for each variable, and only where the frontier asks
   for one. The new instructions are looked at in turn, the phis in the given order, and those without uses are dropped.
   */
  method Promote(g: Graph, preds: seq<seq<nat>>, code0: seq<seq<F.Ins>>, n: nat, order: seq<Site>)
    returns (r: Result, news: seq<Site>, ghost heads: seq<seq<nat>>)
    requires PredsOf(g, preds) && AllReachable(g) && EntryHasNoPred(g) && |code0| == |g.succs|
    requires StrictSsa(g, KeptAll(code0)) && OnlyPromoted(code0, n)
    ensures Fits(r) && |r.code| == |code0| && NoLoadUsed(r) && NotUsed(r) && PhiArguments.NoSingles(r.phis)
    ensures |heads| == |code0| && r.code == Placed(code0, heads, n) && M.OnePhiEach(heads) && M.PhisNeeded(g, Shapes(r.code))
    ensures ListsNews(r.code, order, news) && forall s :: s in r.gone ==> s in news
    ensures forall s :: s in news && NoSlotHas(r.slots, s) && OnlyPhisHave(r.code, r.slots, r.phis, {}, s) ==> s in r.gone
    ensures forall i: nat :: i < |news| ==> DroppedInTurn(r.code, r.slots, r.phis, r.gone, news, i)
    ensures forall p, st: F.State, f: F.Effect :: IsPath(g, p) && p[0] == 0 ==> Observes(code0, r, p, st, f)
  {
    var blocks0 := Shapes(KeptAll(code0));
    assert M.Unpromoted(blocks0);
    var headed, blocks, sources, phis;
    ghost var idom;
    headed, blocks, sources, phis, idom := M.RunOnFunction(g, preds, blocks0, n);
    heads := headed;
    var code := Placed(code0, headed, n);
    PlacedShapes(code0, heads, n);
    PlacedStrict(g, code0, heads, n);
    PlacedWell(g, code0, heads, n);
    PhiArguments.NoneSingle(g, blocks, n, phis);
    SourcesAnswer(g, code, n, sources);
    var blockOrder := DepthFirstOrder(g);
    var slots := ResetUses(g, code, sources, blockOrder);
    PhisInCode(g, code, phis);
    news := ListNews(code, order);
    var gone := CleanUp(code, slots, phis, news);
    r := Result(code, slots, phis, gone);
    NotUsedUnneeded(r);
    ghost var c := Setup(g, r, sources, idom, n);
    NoneLeft(c);
    forall p, st: F.State, f: F.Effect | IsPath(g, p) && p[0] == 0
      ensures Observes(code0, r, p, st, f)
    {
      SameTrace(c, p, st, f);
      PathThrough(code0, heads, n, p, Before(st), f);
    }
  }

  /** Both versions let the other instructions see the same along the path. */
  ghost predicate Observes(code0: seq<seq<F.Ins>>, r: Result, p: seq<nat>, st: F.State, f: F.Effect)
    requires Fits(r) && |r.code| == |code0|
  {
    OnCode(r.code, p) && RunBlocks(code0, p, st, f).trace == AfterPath(r, p, Afterwards(st), st.mem, f).trace
  }

  lemma PhisInCode(g: Graph, code: FullCode, phis: seq<map<nat, set<Site>>>)
    requires ValidCode(g, Shapes(code)) && |phis| == |code| && forall b: nat :: b < |code| ==> M.PhisFilled(g, Shapes(code), b, phis[b])
    ensures forall b, k, s :: 0 <= b < |code| && k in phis[b] && s in phis[b][k] ==> InCode(code, s)
  {
    forall b: nat, k: nat, s | b < |code| && k in phis[b] && s in phis[b][k]
      ensures InCode(code, s)
    {
      assert M.PhisFilled(g, Shapes(code), b, phis[b]);
      var v := Shapes(code)[b][k].v;
      assert EntersBlock(g, Shapes(code), v, s, b);
      var q :| PathBetween(g, q, 0, b) && |q| >= 2 && Reaching(Shapes(code), v, q[..|q| - 1]) == Some(s);
      ReachingAt(Shapes(code), v, q[..|q| - 1], s);
    }
  }

  lemma NoneLeft(c: Setup)
    requires Rewritten(c) && Fits(c.r)
    ensures NoLoadUsed(c.r)
  {
    forall b, k, j, l | 0 <= b < |c.r.slots| && 0 <= k < |c.r.slots[b]| && 0 <= j < |c.r.slots[b][k]|
      ensures !UsesLoad(c.r.code, l, c.r.slots[b][k][j])
    {
      assert ReplacedAt(c.g, c.r.code, c.sources, c.r.slots, Loads(c.r.code), Site(b, k), j);
    }
  }
}