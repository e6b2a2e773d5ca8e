/** Why runs before and after promotion observe the same. */
module PromotedProofs {
  import opened Digraph
  import opened DominanceFrontier
  import F = InBlockForwarding
  import M = MemoryToRegister
  import opened Options
  import L = PromotedLoads
  import opened PromotedCode
  import opened PromotedRuns
  import opened ReachingDefinitions
  import opened SiteOrder

  /** The function with its result, the definitions that answer loads, and what is known about the graph. */
  datatype Setup = Setup(g: Graph, r: Result, sources: seq<map<nat, Site>>, idom: seq<nat>, n: nat)

  ghost predicate OnGraph(c: Setup) {
    ValidCode(c.g, Shapes(c.r.code)) && AllReachable(c.g) && EntryHasNoPred(c.g) && IdomsOf(c.g, c.idom)
  }

  ghost predicate Rewritten(c: Setup) {
    && StrictSsa(c.g, c.r.code) && Answered(c.g, c.r.code, c.sources)
    && Replaced(c.g, c.r.code, c.sources, c.r.slots, Loads(c.r.code))
  }

  predicate Concerns(i: Full, v: nat) {
    match i
    case NewPhi(u) => u == v
    case NewInit(u) => u == v
    case Old(Store(u, _)) => u == v
    case Old(Load(_, u)) => u == v
    case Old(Op(_, _)) => false
  }

  /** Phis are at the head of their blocks, initial loads before everything else in the entry. */
  ghost predicate WellPlaced(code: FullCode, n: nat) {
    && (forall x: Site, v: nat :: InCode(code, x) && Concerns(At(code, x), v) ==> v < n)
    && (forall b: nat, k: nat, j: nat :: b < |code| && j < k < |code[b]| && code[b][k].NewPhi? ==> code[b][j].NewPhi?)
    && (forall x: Site :: InCode(code, x) && At(code, x).NewPhi? ==> x.block != 0)
    && (forall x: Site :: InCode(code, x) && At(code, x).NewInit? ==> InitFirst(code, x))
  }

  ghost predicate InitFirst(code: FullCode, x: Site)
    requires InCode(code, x) && At(code, x).NewInit?
  {
    x.block == 0 && LastDef(BlockShapes(code[0])[..x.index], At(code, x).v).None?
  }

  ghost predicate LoadsRight(c: Setup)
    requires OnGraph(c)
  {
    |c.sources| == |c.r.code| && forall x: Site :: InCode(c.r.code, x) && IsLoad(At(c.r.code, x)) ==> LoadRight(c, x)
  }

  ghost predicate LoadRight(c: Setup, x: Site)
    requires OnGraph(c) && InCode(c.r.code, x) && IsLoad(At(c.r.code, x)) && |c.sources| == |c.r.code|
  {
    x.index in c.sources[x.block] && M.AnsweredAt(c.g, Shapes(c.r.code), x.block, x.index, c.sources[x.block][x.index])
  }

  ghost predicate PhisRight(c: Setup)
    requires OnGraph(c)
  {
    && AllPhisPlaced(c.g, Shapes(c.r.code), c.n) && |c.r.phis| == |c.r.code|
    && forall b: nat :: b < |c.r.code| ==> M.PhisFilled(c.g, Shapes(c.r.code), b, c.r.phis[b])
  }

  predicate ArgGone(r: Result, a: Arg) {
    a.Made? && a.s in r.gone
  }

  /** Nothing that stays uses what has been dropped. */
  ghost predicate Unneeded(r: Result)
    requires Fits(r)
  {
    && (forall b: nat, k: nat, j: nat :: b < |r.code| && k < |r.code[b]| && r.code[b][k].Old? && r.code[b][k].ins.Op? && j < |r.slots[b][k]| ==>
          !ArgGone(r, r.slots[b][k][j]))
    && (forall b: nat, k: nat, s :: b < |r.code| && k in r.phis[b] && Site(b, k) !in r.gone && s in r.phis[b][k] ==> !ArgGone(r, Entry(r.code, r.slots, s)))
  }

  ghost predicate Ready(c: Setup) {
    OnGraph(c) && Rewritten(c) && WellPlaced(c.r.code, c.n) && LoadsRight(c) && PhisRight(c) && Fits(c.r) && Unneeded(c.r)
  }

  // ---- what both runs keep ----

  /** What the new code has for the value of instruction `y`. */
  ghost function HeldArg(c: Setup, y: Site): Option<Arg>
    requires Fits(c.r) && InCode(c.r.code, y)
  {
    match At(c.r.code, y)
    case NewPhi(_) => Some(Made(y))
    case NewInit(_) => Some(Made(y))
    case Old(Store(_, _)) => Some(Entry(c.r.code, c.r.slots, y))
    case Old(Load(_, _)) =>
      if y.block < |c.sources| && y.index in c.sources[y.block] && InCode(c.r.code, c.sources[y.block][y.index]) then
        Some(Entry(c.r.code, c.r.slots, c.sources[y.block][y.index]))
      else None
    case Old(Op(_, _)) => None
  }

  /** What produces the operand has been executed again after `y`. */
  ghost predicate Stale(code: FullCode, p: seq<nat>, i: nat, a: Arg, y: Site)
    requires p != []
  {
    exists x :: Produces(code, x, a) && !NotAfter(p, i, x, y)
  }

  /** Unless it is stale, the operand has the value that `y` had. */
  ghost predicate Held(c: Setup, p: seq<nat>, i: nat, t: Track, s: Promo, y: Site)
    requires Fits(c.r) && p != []
  {
    InCode(c.r.code, y) && LastAt(p, i, y) >= 0 && HeldArg(c, y).Some? && !ArgGone(c.r, HeldArg(c, y).value) ==>
      y in t.val && (Stale(c.r.code, p, i, HeldArg(c, y).value, y) || ArgValue(HeldArg(c, y).value, s) == t.val[y])
  }

  ghost predicate AllHeld(c: Setup, p: seq<nat>, i: nat, t: Track, s: Promo)
    requires Fits(c.r) && p != []
  {
    forall y :: Held(c, p, i, t, s, y)
  }

  ghost predicate LoadReg(code: FullCode, q: nat) {
    exists l :: LoadsAt(code, l, q)
  }

  /** Registers that are not loaded are equal. */
  ghost predicate SameRegs(code: FullCode, t: Track, s: Promo) {
    forall q: nat :: !LoadReg(code, q) ==> F.Read(t.st.regs, q) == F.Read(s.regs, q)
  }

  /** Registers that are loaded have what was loaded. */
  ghost predicate LoadedRegs(code: FullCode, p: seq<nat>, i: nat, t: Track)
    requires p != []
  {
    forall l: Site, q: nat :: LoadedReg(code, p, i, t, l, q)
  }

  ghost predicate LoadedReg(code: FullCode, p: seq<nat>, i: nat, t: Track, l: Site, q: nat)
    requires p != []
  {
    LoadsAt(code, l, q) && LastAt(p, i, l) >= 0 ==> l in t.val && F.Read(t.st.regs, q) == t.val[l]
  }

  ghost predicate InMemory(code: FullCode, t: Track, mem: map<nat, int>) {
    forall v: nat :: InMemoryAt(code, t, mem, v)
  }

  /** Memory holds the value of the last definition, or what was there at the beginning. */
  ghost predicate InMemoryAt(code: FullCode, t: Track, mem: map<nat, int>, v: nat) {
    if v in t.last then
      && t.last[v] in t.val && t.val[t.last[v]] == F.Read(t.st.mem, v)
      && InCode(code, t.last[v]) && IsDefinition(At(code, t.last[v])) && Concerns(At(code, t.last[v]), v)
    else F.Read(t.st.mem, v) == F.Read(mem, v)
  }

  ghost predicate Both(c: Setup, p: seq<nat>, i: nat, t: Track, s: Promo, mem: map<nat, int>)
    requires Fits(c.r) && p != []
  {
    && t.st.trace == s.trace
    && SameRegs(c.r.code, t, s) && LoadedRegs(c.r.code, p, i, t) && InMemory(c.r.code, t, mem)
    && AllHeld(c, p, i, t, s)
  }

  // ---- using an operand ----

  /** What is the value of a load is produced by the definition or what dominates that. */
  lemma ProducedBefore(c: Setup, s: Site, x: Site)
    requires Ready(c) && InCode(c.r.code, s) && IsDefinition(At(c.r.code, s)) && Produces(c.r.code, x, Entry(c.r.code, c.r.slots, s))
    ensures x == s || SiteDom(c.g, x, s)
  {
    var code, slots := c.r.code, c.r.slots;
    if At(code, s).Old? {
      assert ReplacedAt(c.g, code, c.sources, slots, Loads(c.r.code), s, 0);
      assert Dominated(c.g, code, s, slots[s.block][s.index][0]);
    }
  }

  /** At an instruction that `y` dominates, the operand held for `y` is not stale. */
  lemma NotStale(c: Setup, p: seq<nat>, i: nat, s: Site, y: Site)
    requires Ready(c) && IsPath(c.g, p) && p[0] == 0 && SiteDom(c.g, y, Site(p[|p| - 1], i))
    requires InCode(c.r.code, s) && IsDefinition(At(c.r.code, s)) && (y == s || SiteDom(c.g, s, y)) && InCode(c.r.code, y)
    ensures LastAt(p, i, y) >= 0 && !Stale(c.r.code, p, i, Entry(c.r.code, c.r.slots, s), y)
  {
    Fresh(c.g, p, i, y, y);
    forall x | Produces(c.r.code, x, Entry(c.r.code, c.r.slots, s))
      ensures NotAfter(p, i, x, y)
    {
      ProducedBefore(c, s, x);
      if x != s && s != y {
        SiteDomTransitive(c.g, x, s, y);
      }
      Fresh(c.g, p, i, x, y);
    }
  }

  /** Slot `j` of the next instruction has the value of the operand that was there before. */
  lemma UseAgrees(c: Setup, p: seq<nat>, i: nat, t: Track, s: Promo, mem: map<nat, int>, j: nat)
    requires Ready(c) && IsPath(c.g, p) && p[0] == 0 && i < |c.r.code[p[|p| - 1]]| && Both(c, p, i, t, s, mem)
    requires j < |c.r.slots[p[|p| - 1]][i]| && !ArgGone(c.r, c.r.slots[p[|p| - 1]][i][j])
    ensures ArgValue(c.r.slots[p[|p| - 1]][i][j], s) == F.Value(OldSlots(c.r.code[p[|p| - 1]][i])[j], t.st.regs)
  {
    var code, u := c.r.code, Site(p[|p| - 1], i);
    var o, a := OldSlots(At(code, u))[j], c.r.slots[u.block][u.index][j];
    assert ReplacedAt(c.g, code, c.sources, c.r.slots, Loads(c.r.code), u, j);
    assert SlotIs(code, c.sources, c.r.slots, Loads(c.r.code), u, j);
    if o.Reg? && LoadReg(code, o.r) {
      var l :| LoadsAt(code, l, o.r);
      assert l in Loads(c.r.code) && LoadRight(c, l);
      assert AnsweredBy(c.g, code, c.sources, l.block, l.index);
      var d := c.sources[l.block][l.index];
      assert a == Entry(code, c.r.slots, d);
      assert UsesAt(code, u, o.r) && AssignsAt(code, l, o.r);
      NotStale(c, p, i, d, l);
      assert Held(c, p, i, t, s, l) && LoadedReg(code, p, i, t, l, o.r);
    } else {
      assert o.Imm? || forall l: Site :: l in Loads(c.r.code) ==> !LoadsAt(code, l, o.r);
    }
  }

  // ---- one instruction ----

  /** The run is about to execute instruction `i` of the last block of `p`. */
  ghost predicate Underway(c: Setup, p: seq<nat>, i: nat, t: Track, s: Promo, mem: map<nat, int>) {
    && Ready(c) && IsPath(c.g, p) && p[0] == 0 && i <= |c.r.code[p[|p| - 1]]|
    && Both(c, p, i, t, s, mem) && LastIs(c.r.code, p, i, t)
  }

  ghost predicate LastIs(code: FullCode, p: seq<nat>, i: nat, t: Track)
    requires p != [] && OnCode(code, p) && i <= |code[p[|p| - 1]]|
  {
    forall v: nat :: AsOption(t.last, v) == L.LastBefore(Shapes(code), v, p, i)
  }

  lemma LastAtNext(p: seq<nat>, i: nat, x: Site)
    requires p != []
    ensures LastAt(p, i + 1, x) == if x == Site(p[|p| - 1], i) then |p| - 1 else LastAt(p, i, x)
  {
  }

  /** Executing `u` makes stale what it produces, and nothing else. */
  lemma StaleNext(code: FullCode, p: seq<nat>, i: nat, a: Arg, y: Site)
    requires p != [] && y != Site(p[|p| - 1], i) && LastAt(p, i, y) >= 0
    ensures Produces(code, Site(p[|p| - 1], i), a) ==> Stale(code, p, i + 1, a, y)
    ensures !Produces(code, Site(p[|p| - 1], i), a) && Stale(code, p, i, a, y) ==> Stale(code, p, i + 1, a, y)
  {
    var u := Site(p[|p| - 1], i);
    LastAtNext(p, i, u);
    LastAtNext(p, i, y);
    hide LastFull;
    if Produces(code, u, a) {
      assert !NotAfter(p, i + 1, u, y);
    } else if Stale(code, p, i, a, y) {
      var x :| Produces(code, x, a) && !NotAfter(p, i, x, y);
      LastAtNext(p, i, x);
      assert !NotAfter(p, i + 1, x, y);
    }
  }

  /** Nobody but `u` is affected by `u`, other than by getting stale. */
  lemma OthersHeld(c: Setup, p: seq<nat>, i: nat, t: Track, s: Promo, t': Track, s': Promo, y: Site)
    requires Fits(c.r) && p != [] && Held(c, p, i, t, s, y) && y != Site(p[|p| - 1], i)
    requires y in t.val ==> y in t'.val && t'.val[y] == t.val[y]
    requires forall a :: !Produces(c.r.code, Site(p[|p| - 1], i), a) ==> ArgValue(a, s') == ArgValue(a, s)
    ensures Held(c, p, i + 1, t', s', y)
  {
    hide Stale, ArgValue;
    LastAtNext(p, i, y);
    if InCode(c.r.code, y) && LastAt(p, i, y) >= 0 && HeldArg(c, y).Some? && !ArgGone(c.r, HeldArg(c, y).value) {
      StaleNext(c.r.code, p, i, HeldArg(c, y).value, y);
    }
  }

  ghost function At0(c: Setup, p: seq<nat>, i: nat): Full
    requires p != [] && OnCode(c.r.code, p) && i < |c.r.code[p[|p| - 1]]|
  {
    c.r.code[p[|p| - 1]][i]
  }

  lemma OperandsAgree(c: Setup, p: seq<nat>, i: nat, t: Track, s: Promo, mem: map<nat, int>)
    requires Underway(c, p, i, t, s, mem) && i < |c.r.code[p[|p| - 1]]| && At0(c, p, i).Old? && At0(c, p, i).ins.Op?
    ensures ArgValues(c.r.slots[p[|p| - 1]][i], s) == F.Values(At0(c, p, i).ins.args, t.st.regs)
  {
    var args := At0(c, p, i).ins.args;
    forall j: nat | j < |args|
      ensures ArgValue(c.r.slots[p[|p| - 1]][i][j], s) == F.Value(args[j], t.st.regs)
    {
      UseAgrees(c, p, i, t, s, mem, j);
    }
  }

  lemma OneAssignment(c: Setup, x: Site, y: Site, r: nat)
    requires Ready(c) && AssignsAt(c.r.code, x, r) && AssignsAt(c.r.code, y, r)
    ensures x == y
  {
  }

  lemma StepOp(c: Setup, p: seq<nat>, i: nat, t: Track, s: Promo, mem: map<nat, int>, f: F.Effect)
    requires Underway(c, p, i, t, s, mem) && i < |c.r.code[p[|p| - 1]]| && At0(c, p, i).Old? && At0(c, p, i).ins.Op?
    ensures var u := Site(p[|p| - 1], i); Both(c, p, i + 1, Through(At0(c, p, i), u, t, f), After(c.r, u, s, mem, f), mem)
  {
    OperandsAgree(c, p, i, t, s, mem);
    var code, u, ins, next := c.r.code, Site(p[|p| - 1], i), At0(c, p, i).ins, i + 1;
    var t', s' := Through(Old(ins), u, t, f), After(c.r, u, s, mem, f);
    assert AssignsAt(code, u, ins.dst);
    assert t'.st.trace == s'.trace;
    var x := f(s'.trace);
    assert t'.st.regs == t.st.regs[ins.dst := x] && s'.regs == s.regs[ins.dst := x];
    forall v: nat
      ensures InMemoryAt(code, t', mem, v)
    {
      assert InMemoryAt(code, t, mem, v);
    }
    forall l: Site, q: nat
      ensures LoadedReg(code, p, next, t', l, q)
    {
      LastAtNext(p, i, l);
      assert LoadedReg(code, p, i, t, l, q);
      if LoadsAt(code, l, q) && q == ins.dst {
        OneAssignment(c, l, u, q);
      }
    }
    forall y
      ensures Held(c, p, next, t', s', y)
    {
      assert Held(c, p, i, t, s, y);
      if y != u {
        OthersHeld(c, p, i, t, s, t', s', y);
      }
    }
  }

  /** The load reads what its definition left in memory. */
  lemma ReadsDefinition(c: Setup, p: seq<nat>, i: nat, t: Track, s: Promo, mem: map<nat, int>)
    requires Underway(c, p, i, t, s, mem) && i < |c.r.code[p[|p| - 1]]| && IsLoad(At0(c, p, i))
    ensures i in c.sources[p[|p| - 1]]
    ensures var d, v := c.sources[p[|p| - 1]][i], At0(c, p, i).ins.v;
            InCode(c.r.code, d) && IsDefinition(At(c.r.code, d)) && SiteDom(c.g, d, Site(p[|p| - 1], i)) && v in t.last && t.last[v] == d
  {
    var u := Site(p[|p| - 1], i);
    var v := At0(c, p, i).ins.v;
    assert LoadRight(c, u) && AnsweredBy(c.g, c.r.code, c.sources, u.block, u.index);
    assert Shapes(c.r.code)[u.block][i] == Load(v);
    assert PathBetween(c.g, p, 0, u.block);
    assert AsOption(t.last, v) == L.LastBefore(Shapes(c.r.code), v, p, i) == Some(c.sources[u.block][i]);
  }

  lemma StepLoad(c: Setup, p: seq<nat>, i: nat, t: Track, s: Promo, mem: map<nat, int>, f: F.Effect)
    requires Underway(c, p, i, t, s, mem) && i < |c.r.code[p[|p| - 1]]| && IsLoad(At0(c, p, i))
    ensures var u := Site(p[|p| - 1], i); Both(c, p, i + 1, Through(At0(c, p, i), u, t, f), After(c.r, u, s, mem, f), mem)
  {
    ReadsDefinition(c, p, i, t, s, mem);
    var code, u, ins, next := c.r.code, Site(p[|p| - 1], i), At0(c, p, i).ins, i + 1;
    var t', d := Through(Old(ins), u, t, f), c.sources[u.block][i];
    assert AssignsAt(code, u, ins.dst) && LoadsAt(code, u, ins.dst);
    forall l: Site, q: nat
      ensures LoadedReg(code, p, next, t', l, q)
    {
      LastAtNext(p, i, l);
      assert LoadedReg(code, p, i, t, l, q);
      if LoadsAt(code, l, q) && q == ins.dst {
        OneAssignment(c, l, u, q);
      }
    }
    forall v: nat
      ensures InMemoryAt(code, t', mem, v)
    {
      assert InMemoryAt(code, t, mem, v);
    }
    assert InMemoryAt(code, t, mem, ins.v);
    forall y
      ensures Held(c, p, next, t', s, y)
    {
      assert Held(c, p, i, t, s, y);
      if y != u {
        OthersHeld(c, p, i, t, s, t', s, y);
      } else {
        NotStale(c, p, i, d, d);
        assert Held(c, p, i, t, s, d);
      }
    }
  }

  lemma StepStore(c: Setup, p: seq<nat>, i: nat, t: Track, s: Promo, mem: map<nat, int>, f: F.Effect)
    requires Underway(c, p, i, t, s, mem) && i < |c.r.code[p[|p| - 1]]| && At0(c, p, i).Old? && At0(c, p, i).ins.Store?
    ensures var u := Site(p[|p| - 1], i); Both(c, p, i + 1, Through(At0(c, p, i), u, t, f), After(c.r, u, s, mem, f), mem)
  {
    var code, u, ins, next := c.r.code, Site(p[|p| - 1], i), At0(c, p, i).ins, i + 1;
    var t' := Through(Old(ins), u, t, f);
    assert OldSlots(Old(ins))[0] == ins.src;
    forall l: Site, q: nat
      ensures LoadedReg(code, p, next, t', l, q)
    {
      LastAtNext(p, i, l);
      assert LoadedReg(code, p, i, t, l, q);
    }
    forall v: nat
      ensures InMemoryAt(code, t', mem, v)
    {
      assert InMemoryAt(code, t, mem, v);
    }
    forall y
      ensures Held(c, p, next, t', s, y)
    {
      assert Held(c, p, i, t, s, y);
      if y != u {
        OthersHeld(c, p, i, t, s, t', s, y);
      } else if !ArgGone(c.r, c.r.slots[u.block][i][0]) {
        UseAgrees(c, p, i, t, s, mem, 0);
      }
    }
  }

  lemma LastEdge(g: Graph, p: seq<nat>)
    requires IsPath(g, p)
    ensures |p| > 1 ==> Edge(g, p[|p| - 2], p[|p| - 1])
  {
  }

  lemma EntryOnce(g: Graph, p: seq<nat>)
    requires EntryHasNoPred(g) && IsPath(g, p) && p[|p| - 1] == 0
    ensures |p| == 1
  {
    LastEdge(g, p);
  }

  /** An initial load comes before every definition of its variable. */
  lemma NotYetDefined(c: Setup, p: seq<nat>, i: nat, t: Track, s: Promo, mem: map<nat, int>)
    requires Underway(c, p, i, t, s, mem) && i < |c.r.code[p[|p| - 1]]| && At0(c, p, i).NewInit?
    ensures At0(c, p, i).v !in t.last
  {
    var code, v := c.r.code, At0(c, p, i).v;
    assert InitFirst(code, Site(p[|p| - 1], i));
    EntryOnce(c.g, p);
    assert p[..|p| - 1] == [];
    assert Shapes(code)[0] == BlockShapes(code[0]);
    assert AsOption(t.last, v) == L.LastBefore(Shapes(code), v, p, i) == None;
  }

  lemma StepInit(c: Setup, p: seq<nat>, i: nat, t: Track, s: Promo, mem: map<nat, int>, f: F.Effect)
    requires Underway(c, p, i, t, s, mem) && i < |c.r.code[p[|p| - 1]]| && At0(c, p, i).NewInit?
    ensures var u := Site(p[|p| - 1], i); Both(c, p, i + 1, Through(At0(c, p, i), u, t, f), After(c.r, u, s, mem, f), mem)
  {
    NotYetDefined(c, p, i, t, s, mem);
    var code, u, next, v0 := c.r.code, Site(p[|p| - 1], i), i + 1, At0(c, p, i).v;
    var t', s' := Through(NewInit(v0), u, t, f), After(c.r, u, s, mem, f);
    assert InMemoryAt(code, t, mem, v0);
    forall l: Site, q: nat
      ensures LoadedReg(code, p, next, t', l, q)
    {
      LastAtNext(p, i, l);
      assert LoadedReg(code, p, i, t, l, q);
    }
    forall v: nat
      ensures InMemoryAt(code, t', mem, v)
    {
      assert InMemoryAt(code, t, mem, v);
    }
    forall y
      ensures Held(c, p, next, t', s', y)
    {
      assert Held(c, p, i, t, s, y);
      if y != u {
        OthersHeld(c, p, i, t, s, t', s', y);
      }
    }
  }

  lemma LastIsNext(code: FullCode, p: seq<nat>, i: nat, t: Track, f: F.Effect)
    requires p != [] && OnCode(code, p) && i < |code[p[|p| - 1]]| && LastIs(code, p, i, t)
    ensures LastIs(code, p, i + 1, Through(code[p[|p| - 1]][i], Site(p[|p| - 1], i), t, f))
  {
    var b, next := p[|p| - 1], i + 1;
    var t' := Through(code[b][i], Site(b, i), t, f);
    var shapes := Shapes(code)[b];
    assert shapes == BlockShapes(code[b]) && shapes[i] == Shape(code[b][i]);
    forall v: nat
      ensures AsOption(t'.last, v) == L.LastBefore(Shapes(code), v, p, next)
    {
      assert AsOption(t.last, v) == L.LastBefore(Shapes(code), v, p, i);
      assert shapes[..next][..i] == shapes[..i];
    }
  }

  /** Every instruction but a phi. */
  lemma StepAgrees(c: Setup, p: seq<nat>, i: nat, t: Track, s: Promo, mem: map<nat, int>, f: F.Effect)
    requires Underway(c, p, i, t, s, mem) && i < |c.r.code[p[|p| - 1]]| && !At0(c, p, i).NewPhi?
    ensures var u := Site(p[|p| - 1], i); Underway(c, p, i + 1, Through(At0(c, p, i), u, t, f), After(c.r, u, s, mem, f), mem)
  {
    LastIsNext(c.r.code, p, i, t, f);
    match At0(c, p, i) {
      case NewInit(_) => StepInit(c, p, i, t, s, mem, f);
      case Old(Store(_, _)) => StepStore(c, p, i, t, s, mem, f);
      case Old(Load(_, _)) => StepLoad(c, p, i, t, s, mem, f);
      case Old(Op(_, _)) => StepOp(c, p, i, t, s, mem, f);
    }
  }

  // ---- entering a block ----

  /** How many phis a block begins with. */
  ghost function Phis(code: seq<Full>): (m: nat)
    ensures m <= |code| && (forall k :: 0 <= k < m ==> code[k].NewPhi?) && (m < |code| ==> !code[m].NewPhi?)
  {
    if code == [] || !code[0].NewPhi? then 0 else 1 + Phis(code[1..])
  }

  /** The path `p` has been run to its end. */
  ghost predicate Finished(c: Setup, p: seq<nat>, t: Track, s: Promo, mem: map<nat, int>) {
    && Ready(c) && IsPath(c.g, p) && p[0] == 0
    && Both(c, p, |c.r.code[p[|p| - 1]]|, t, s, mem)
    && forall v: nat :: AsOption(t.last, v) == Reaching(Shapes(c.r.code), v, p)
  }

  lemma LastAtEnd(code: FullCode, p: seq<nat>, x: Site)
    requires p != [] && OnCode(code, p) && InCode(code, x)
    ensures LastAt(p, |code[p[|p| - 1]]|, x) == LastFull(p, x.block)
  {
  }

  lemma LastAtEntered(code: FullCode, p: seq<nat>, d: nat, m: nat, x: Site)
    requires p != [] && OnCode(code, p) && InCode(code, x)
    ensures LastAt(p + [d], m, x) == if x.block == d && x.index < m then |p| else LastAt(p, |code[p[|p| - 1]]|, x)
  {
    LastAtEnd(code, p, x);
    assert (p + [d])[..|p|] == p;
  }

  /** The last definition is the one whose block was visited last. */
  lemma {:induction false} LatestIs(blocks: seq<seq<Instr>>, v: nat, p: seq<nat>, from: set<Site>, e: Site)
    requires (forall i :: 0 <= i < |p| ==> p[i] < |blocks|) && Reaching(blocks, v, p) == Some(e) && e in from
    requires forall s :: s in from ==> s.block < |blocks| && LastDef(blocks[s.block], v) == Some(s.index)
    ensures Latest(p, from) == Some(e)
  {
    hide LastDef;
    var b := p[|p| - 1];
    if LastDef(blocks[b], v).Some? {
      assert e.block == b;
    } else {
      LatestIs(blocks, v, p[..|p| - 1], from, e);
    }
  }

  /** The definition that reaches the end of the path still has its value in the new code. */
  lemma DefinitionHeld(c: Setup, p: seq<nat>, t: Track, s: Promo, mem: map<nat, int>, v: nat, e: Site)
    requires Finished(c, p, t, s, mem) && v < c.n && Reaching(Shapes(c.r.code), v, p) == Some(e)
    ensures InCode(c.r.code, e)
    ensures ArgGone(c.r, Entry(c.r.code, c.r.slots, e)) || ArgValue(Entry(c.r.code, c.r.slots, e), s) == F.Read(t.st.mem, v)
  {
    var code, b := c.r.code, p[|p| - 1];
    assert AsOption(t.last, v) == Some(e) && InMemoryAt(code, t, mem, v);
    var a := Entry(code, c.r.slots, e);
    assert PhisPlaced(c.g, Shapes(code), v);
    FreshDefinition(c.g, Shapes(code), v, c.idom, p, e, e);
    LastAtEnd(code, p, e);
    forall x | Produces(code, x, a)
      ensures NotAfter(p, |code[b]|, x, e)
    {
      ProducedBefore(c, e, x);
      FreshDefinition(c.g, Shapes(code), v, c.idom, p, x, e);
      LastAtEnd(code, p, x);
    }
    assert Held(c, p, |code[b]|, t, s, e);
  }

  /** The definition that reaches the end of the path is the one that the phi picks. */
  lemma PhiPicks(c: Setup, p: seq<nat>, d: nat, k: nat, v: nat) returns (e: Site)
    requires Ready(c) && IsPath(c.g, p) && p[0] == 0 && Edge(c.g, p[|p| - 1], d) && d < |c.r.code| && k < |c.r.code[d]| && c.r.code[d][k] == NewPhi(v)
    ensures v < c.n && Reaching(Shapes(c.r.code), v, p) == Some(e)
    ensures d < |c.r.phis| && k in c.r.phis[d] && e in c.r.phis[d][k] && Latest(p, c.r.phis[d][k]) == Some(e)
  {
    var shapes := Shapes(c.r.code);
    assert Concerns(At(c.r.code, Site(d, k)), v) && PhisPlaced(c.g, shapes, v);
    assert shapes[d][k] == Phi(v) && M.PhisFilled(c.g, shapes, d, c.r.phis[d]);
    SomethingReaches(c.g, shapes, v, p);
    e := Reaching(shapes, v, p).value;
    PickedLast(c.g, shapes, v, p, d, k, c.r.phis[d], e);
  }

  lemma PickedLast(g: Graph, shapes: seq<seq<Instr>>, v: nat, p: seq<nat>, d: nat, k: nat, phi: map<nat, set<Site>>, e: Site)
    requires ValidCode(g, shapes) && IsPath(g, p) && p[0] == 0 && Edge(g, p[|p| - 1], d) && Reaching(shapes, v, p) == Some(e)
    requires M.PhisFilled(g, shapes, d, phi) && k < |shapes[d]| && shapes[d][k] == Phi(v)
    ensures k in phi && e in phi[k] && Latest(p, phi[k]) == Some(e)
  {
    ExtendPath(g, p, d);
    assert (p + [d])[..|p + [d]| - 1] == p;
    assert EntersBlock(g, shapes, v, e, d);
    forall x | x in phi[k]
      ensures x.block < |shapes| && LastDef(shapes[x.block], v) == Some(x.index)
    {
      assert EntersBlock(g, shapes, v, x, d);
      var q :| PathBetween(g, q, 0, d) && |q| >= 2 && Reaching(shapes, v, q[..|q| - 1]) == Some(x);
      ReachingAt(shapes, v, q[..|q| - 1], x);
    }
    LatestIs(shapes, v, p, phi[k], e);
  }

  /** A phi takes what is in memory. */
  lemma PhiTakes(c: Setup, p: seq<nat>, t: Track, s: Promo, mem: map<nat, int>, d: nat, k: nat)
    requires Finished(c, p, t, s, mem) && Edge(c.g, p[|p| - 1], d) && d < |c.r.code| && k < |c.r.code[d]| && c.r.code[d][k].NewPhi? && Site(d, k) !in c.r.gone
    ensures Taken(c.r, p, s, Site(d, k)) == F.Read(t.st.mem, c.r.code[d][k].v)
  {
    var e := PhiPicks(c, p, d, k, c.r.code[d][k].v);
    DefinitionHeld(c, p, t, s, mem, c.r.code[d][k].v, e);
    hide Both;
  }

  ghost predicate FromPhi(code: seq<Full>, d: nat, k: nat, x: Site, v: nat)
    requires k <= Phis(code)
  {
    x.block == d && x.index < k && code[x.index].v == v
  }

  /** The phis at the head of the block read memory and leave it alone. */
  lemma {:induction false} PhisThrough(code: seq<Full>, d: nat, k: nat, t: Track, f: F.Effect)
    requires k <= Phis(code)
    ensures var t' := ThroughBlock(code, d, k, t, f);
            && t'.st == t.st
            && (forall x: Site :: x.block == d && x.index < k ==> x in t'.val && t'.val[x] == F.Read(t.st.mem, code[x.index].v))
            && (forall x: Site :: !(x.block == d && x.index < k) ==> (x in t'.val <==> x in t.val) && (x in t.val ==> t'.val[x] == t.val[x]))
            && (forall v: nat :: v in t.last ==> v in t'.last)
            && (forall v: nat :: v in t'.last ==> FromPhi(code, d, k, t'.last[v], v) || (v in t.last && t'.last[v] == t.last[v]))
  {
    if k > 0 {
      PhisThrough(code, d, k - 1, t, f);
    }
  }

  lemma {:induction false} PhisAfter(r: Result, d: nat, k: nat, s: Promo, mem: map<nat, int>, f: F.Effect)
    requires Fits(r) && d < |r.code| && k <= Phis(r.code[d])
    ensures AfterBlock(r, d, k, s, mem, f) == s
  {
    if k > 0 {
      PhisAfter(r, d, k - 1, s, mem, f);
    }
  }

  /** Only the phis of the block are new. */
  lemma EnterIs(c: Setup, p: seq<nat>, d: nat, s: Promo)
    requires Ready(c) && d < |c.r.code|
    ensures var s' := Enter(c.r, p, d, s);
            && s'.regs == s.regs && s'.trace == s.trace
            && (forall x: Site :: InCode(c.r.code, x) && x.block == d && x.index < Phis(c.r.code[d]) && x !in c.r.gone ==>
                  MadeValue(s'.made, x) == Taken(c.r, p, s, x))
            && (forall x: Site :: !(x.block == d && x.index < Phis(c.r.code[d])) ==> MadeValue(s'.made, x) == MadeValue(s.made, x))
  {
    var m := Phis(c.r.code[d]);
    forall x: Site
      ensures x in PhiSites(c.r.code, d) <==> x.block == d && x.index < m
    {
      assert m < |c.r.code[d]| ==> !c.r.code[d][m].NewPhi?;
    }
  }

  ghost predicate Entering(c: Setup, p: seq<nat>, t: Track, s: Promo, mem: map<nat, int>, d: nat) {
    Finished(c, p, t, s, mem) && Edge(c.g, p[|p| - 1], d) && d < |c.r.code|
  }

  lemma HeldEntered(c: Setup, p: seq<nat>, t: Track, s: Promo, mem: map<nat, int>, d: nat, f: F.Effect, y: Site)
    requires Entering(c, p, t, s, mem, d)
    ensures var m := Phis(c.r.code[d]); Held(c, p + [d], m, ThroughBlock(c.r.code[d], d, m, t, f), Enter(c.r, p, d, s), y)
  {
    var code, m := c.r.code, Phis(c.r.code[d]);
    var p', t', s' := p + [d], ThroughBlock(code[d], d, m, t, f), Enter(c.r, p, d, s);
    PhisThrough(code[d], d, m, t, f);
    EnterIs(c, p, d, s);
    if InCode(code, y) && LastAt(p', m, y) >= 0 && HeldArg(c, y).Some? && !ArgGone(c.r, HeldArg(c, y).value) {
      LastAtEntered(code, p, d, m, y);
      if y.block == d && y.index < m {
        PhiTakes(c, p, t, s, mem, d, y.index);
      } else {
        assert Held(c, p, |code[p[|p| - 1]]|, t, s, y);
        OldHeldEntered(c, p, d, m, HeldArg(c, y).value, y, s, s');
      }
    }
  }

  lemma OldHeldEntered(c: Setup, p: seq<nat>, d: nat, m: nat, a: Arg, y: Site, s: Promo, s': Promo)
    requires p != [] && OnCode(c.r.code, p) && InCode(c.r.code, y) && !(y.block == d && y.index < m) && LastAt(p + [d], m, y) >= 0
    requires s'.regs == s.regs && forall x: Site :: !(x.block == d && x.index < m) ==> MadeValue(s'.made, x) == MadeValue(s.made, x)
    requires d < |c.r.code| && m <= |c.r.code[d]| && forall k :: 0 <= k < m ==> c.r.code[d][k].NewPhi?
    ensures Stale(c.r.code, p, |c.r.code[p[|p| - 1]]|, a, y) ==> Stale(c.r.code, p + [d], m, a, y)
    ensures Stale(c.r.code, p + [d], m, a, y) || ArgValue(a, s') == ArgValue(a, s)
  {
    var code, e := c.r.code, |c.r.code[p[|p| - 1]]|;
    hide LastAt;
    LastAtEntered(code, p, d, m, y);
    if Stale(code, p, e, a, y) {
      var x :| Produces(code, x, a) && !NotAfter(p, e, x, y);
      LastAtEntered(code, p, d, m, x);
      assert !NotAfter(p + [d], m, x, y);
    }
    if a.Made? && a.s.block == d && a.s.index < m {
      LastAtEntered(code, p, d, m, a.s);
      LastAtEnd(code, p, y);
      assert Produces(code, a.s, a) && !NotAfter(p + [d], m, a.s, y);
    }
  }

  lemma EnterAgrees(c: Setup, p: seq<nat>, t: Track, s: Promo, mem: map<nat, int>, d: nat, f: F.Effect)
    requires Entering(c, p, t, s, mem, d)
    ensures var m := Phis(c.r.code[d]); Underway(c, p + [d], m, ThroughBlock(c.r.code[d], d, m, t, f), Enter(c.r, p, d, s), mem)
  {
    var code, m := c.r.code, Phis(c.r.code[d]);
    var p', t', s' := p + [d], ThroughBlock(code[d], d, m, t, f), Enter(c.r, p, d, s);
    PhisThrough(code[d], d, m, t, f);
    EnterIs(c, p, d, s);
    ExtendPath(c.g, p, d);
    forall y
      ensures Held(c, p', m, t', s', y)
    {
      HeldEntered(c, p, t, s, mem, d, f, y);
    }
    forall l: Site, q: nat
      ensures LoadedReg(code, p', m, t', l, q)
    {
      assert LoadedReg(code, p, |code[p[|p| - 1]]|, t, l, q);
      if LoadsAt(code, l, q) {
        LastAtEntered(code, p, d, m, l);
      }
    }
    forall v: nat
      ensures InMemoryAt(code, t', mem, v)
    {
      assert InMemoryAt(code, t, mem, v);
    }
    forall v: nat
      ensures AsOption(t'.last, v) == L.LastBefore(Shapes(code), v, p', m)
    {
      BlockTracksLast(code[d], d, m, t, f, v);
      assert p'[..|p'| - 1] == p;
    }
  }

  // ---- whole paths ----

  lemma ReadyCode(c: Setup)
    requires Ready(c)
    ensures Fits(c.r) && |c.r.code| == |c.g.succs|
  {
  }

  lemma NoLatePhi(c: Setup, b: nat, k: nat)
    requires Ready(c) && b < |c.r.code| && Phis(c.r.code[b]) <= k < |c.r.code[b]|
    ensures !c.r.code[b][k].NewPhi?
  {
    assert !c.r.code[b][Phis(c.r.code[b])].NewPhi?;
  }

  /** Instruction `i` of block `b` is next; `t` and `s` are the states at the beginning of the block. */
  ghost predicate InBlock(c: Setup, p: seq<nat>, b: nat, i: nat, t: Track, s: Promo, mem: map<nat, int>, f: F.Effect) {
    && Ready(c) && IsPath(c.g, p) && b == p[|p| - 1] && i <= |c.r.code[b]|
    && Underway(c, p, i, ThroughBlock(c.r.code[b], b, i, t, f), AfterBlock(c.r, b, i, s, mem, f), mem)
  }

  lemma InBlockNext(c: Setup, p: seq<nat>, b: nat, i: nat, t: Track, s: Promo, mem: map<nat, int>, f: F.Effect)
    requires InBlock(c, p, b, i, t, s, mem, f) && Phis(c.r.code[b]) <= i < |c.r.code[b]|
    ensures InBlock(c, p, b, i + 1, t, s, mem, f)
  {
    NoLatePhi(c, b, i);
    hide Underway, Through, After;
    StepAgrees(c, p, i, ThroughBlock(c.r.code[b], b, i, t, f), AfterBlock(c.r, b, i, s, mem, f), mem, f);
  }

  lemma {:induction false} BlockAgrees(c: Setup, p: seq<nat>, b: nat, i: nat, t: Track, s: Promo, mem: map<nat, int>, f: F.Effect)
    requires b < |c.r.code| && Phis(c.r.code[b]) <= i <= |c.r.code[b]| && InBlock(c, p, b, Phis(c.r.code[b]), t, s, mem, f)
    ensures InBlock(c, p, b, i, t, s, mem, f)
  {
    hide InBlock;
    if i > Phis(c.r.code[b]) {
      BlockAgrees(c, p, b, i - 1, t, s, mem, f);
      InBlockNext(c, p, b, i - 1, t, s, mem, f);
    }
  }

  lemma BlockFinishes(c: Setup, p: seq<nat>, t: Track, s: Promo, mem: map<nat, int>)
    requires p != [] && OnCode(c.r.code, p) && Underway(c, p, |c.r.code[p[|p| - 1]]|, t, s, mem)
    ensures Finished(c, p, t, s, mem)
  {
    var b, shapes := p[|p| - 1], Shapes(c.r.code);
    assert shapes[b][..|c.r.code[b]|] == shapes[b];
    forall v: nat
      ensures AsOption(t.last, v) == Reaching(shapes, v, p)
    {
      assert AsOption(t.last, v) == L.LastBefore(shapes, v, p, |c.r.code[b]|);
    }
  }

  ghost function Before(st: F.State): Track {
    Track(st, map[], map[])
  }

  ghost function Afterwards(st: F.State): Promo {
    Promo(st.regs, map[], st.trace)
  }

  lemma EntryAgrees(c: Setup, st: F.State)
    requires Ready(c)
    ensures Phis(c.r.code[0]) == 0 && IsPath(c.g, [0]) && Enter(c.r, [], 0, Afterwards(st)) == Afterwards(st)
    ensures Underway(c, [0], 0, Before(st), Afterwards(st), st.mem)
  {
    var code, p: seq<nat> := c.r.code, [0];
    assert |code[0]| > 0 ==> !At(code, Site(0, 0)).NewPhi?;
    forall k: nat | k < |code[0]|
      ensures !code[0][k].NewPhi?
    {
      assert !At(code, Site(0, k)).NewPhi?;
    }
    assert PhiSites(code, 0) == {};
    assert p[..0] == [] && Shapes(code)[0][..0] == [];
    forall x: Site
      ensures LastAt(p, 0, x) == -1
    {
    }
  }

  lemma {:induction false} PathAgrees(c: Setup, p: seq<nat>, st: F.State, f: F.Effect)
    requires Ready(c) && IsPath(c.g, p) && p[0] == 0
    ensures Finished(c, p, ThroughPath(c.r.code, p, Before(st), f), AfterPath(c.r, p, Afterwards(st), st.mem, f), st.mem)
  {
    ReadyCode(c);
    var b, q := p[|p| - 1], p[..|p| - 1];
    var code := c.r.code;
    var m := Phis(code[b]);
    var t, s := ThroughPath(code, q, Before(st), f), AfterPath(c.r, q, Afterwards(st), st.mem, f);
    var s' := Enter(c.r, q, b, s);
    ReadyCode(c);
    hide Underway, Finished, Enter, Ready;
    if q == [] {
      EntryAgrees(c, st);
      assert p == [0];
    } else {
      Subpath(c.g, p, 0, |p| - 1);
      assert p[0..|p| - 1] == q && q + [b] == p;
      PathAgrees(c, q, st, f);
      LastEdge(c.g, p);
      EnterAgrees(c, q, t, s, st.mem, b, f);
      PhisAfter(c.r, b, m, s', st.mem, f);
    }
    assert InBlock(c, p, b, m, t, s', st.mem, f);
    BlockAgrees(c, p, b, |code[b]|, t, s', st.mem, f);
    BlockFinishes(c, p, ThroughBlock(code[b], b, |code[b]|, t, f), AfterBlock(c.r, b, |code[b]|, s', st.mem, f), st.mem);
  }

  /** Along every path, the other instructions see the same operand values with promotion as without. */
  lemma SameTrace(c: Setup, p: seq<nat>, st: F.State, f: F.Effect)
    requires Ready(c) && IsPath(c.g, p) && p[0] == 0
    ensures ThroughPath(c.r.code, p, Before(st), f).st.trace == AfterPath(c.r, p, Afterwards(st), st.mem, f).trace
  {
    PathAgrees(c, p, st, f);
  }
}
