/**
 Promotion with operands: every use of a load is reset to the value of the definition that
 answers it, until no use of a load is left. Stores, loads and unused phis are dropped then.
 */
module PromotedCode {
  import opened Digraph
  import F = InBlockForwarding
  import opened Options
  import opened ReachingDefinitions
  import opened SiteOrder

  /** An instruction of the function before promotion, or one that promotion adds. */
  datatype Full = NewPhi(v: nat) | NewInit(v: nat) | Old(ins: F.Ins)

  type FullCode = seq<seq<Full>>

  /** What an instruction means to the promoted variables. */
  function Shape(i: Full): Instr {
    match i
    case NewPhi(v) => Phi(v)
    case NewInit(v) => InitLoad(v)
    case Old(Store(v, _)) => Store(v)
    case Old(Load(_, v)) => Load(v)
    case Old(Op(_, _)) => Other
  }

  function BlockShapes(code: seq<Full>): (r: seq<Instr>)
    ensures |r| == |code| && forall k :: 0 <= k < |r| ==> r[k] == Shape(code[k])
  {
    seq(|code|, k requires 0 <= k < |code| => Shape(code[k]))
  }

  function Shapes(code: FullCode): (r: seq<seq<Instr>>)
    ensures |r| == |code| && forall b :: 0 <= b < |r| ==> r[b] == BlockShapes(code[b])
  {
    seq(|code|, b requires 0 <= b < |code| => BlockShapes(code[b]))
  }

  predicate InCode(code: FullCode, s: Site) {
    s.block < |code| && s.index < |code[s.block]|
  }

  function At(code: FullCode, s: Site): Full
    requires InCode(code, s)
  {
    code[s.block][s.index]
  }

  predicate AssignsAt(code: FullCode, s: Site, r: nat) {
    InCode(code, s) && At(code, s).Old? && F.Assigns(At(code, s).ins, r)
  }

  predicate LoadsAt(code: FullCode, s: Site, r: nat) {
    InCode(code, s) && At(code, s).Old? && At(code, s).ins.Load? && At(code, s).ins.dst == r
  }

  function OldSlots(i: Full): seq<F.Operand> {
    if i.Old? then F.Slots(i.ins) else []
  }

  predicate UsesAt(code: FullCode, s: Site, r: nat) {
    InCode(code, s) && F.Reg(r) in OldSlots(At(code, s))
  }

  /** Every register has one assignment, which dominates all uses. */
  ghost predicate StrictSsa(g: Graph, code: FullCode) {
    && (forall x, y, r: nat :: AssignsAt(code, x, r) && AssignsAt(code, y, r) ==> x == y)
    && (forall x, u, r: nat :: AssignsAt(code, x, r) && UsesAt(code, u, r) ==> SiteDom(g, x, u))
  }

  // ---- operands that are reset ----

  /** An operand of the old code, or the value of a new instruction. */
  datatype Arg = Same(o: F.Operand) | Made(s: Site)

  /** The operands of every instruction. */
  type Slots = seq<seq<seq<Arg>>>

  predicate SlotsFit(code: FullCode, slots: Slots) {
    && |slots| == |code|
    && (forall b :: 0 <= b < |code| ==> |slots[b]| == |code[b]|)
    && (forall b, k :: 0 <= b < |code| && 0 <= k < |code[b]| ==> |slots[b][k]| == |OldSlots(code[b][k])|)
  }

  /** The value of definition `s`: a store gives its operand, phis and initial loads stand for themselves. */
  function Entry(code: FullCode, slots: Slots, s: Site): Arg
    requires SlotsFit(code, slots) && InCode(code, s)
  {
    if At(code, s).Old? && At(code, s).ins.Store? then slots[s.block][s.index][0] else Made(s)
  }

  /** Instruction `x` produces the value of the operand. */
  predicate Produces(code: FullCode, x: Site, a: Arg) {
    match a
    case Same(Reg(r)) => AssignsAt(code, x, r)
    case Same(Imm(_)) => false
    case Made(s) => x == s && InCode(code, s)
  }

  ghost predicate Dominated(g: Graph, code: FullCode, u: Site, a: Arg) {
    forall x :: Produces(code, x, a) ==> SiteDom(g, x, u)
  }

  /** Loads with the definitions that answer them, which dominate them. */
  ghost predicate Answered(g: Graph, code: FullCode, sources: seq<map<nat, Site>>) {
    && |sources| == |code|
    && forall b: nat, k: nat :: b < |code| && k < |code[b]| && code[b][k].Old? && code[b][k].ins.Load? ==> AnsweredBy(g, code, sources, b, k)
  }

  ghost predicate AnsweredBy(g: Graph, code: FullCode, sources: seq<map<nat, Site>>, b: nat, k: nat)
    requires b < |code| == |sources|
  {
    && k in sources[b]
    && InCode(code, sources[b][k]) && IsDefinition(At(code, sources[b][k])) && SiteDom(g, sources[b][k], Site(b, k))
  }

  predicate IsDefinition(i: Full) {
    i.NewPhi? || i.NewInit? || i.ins.Store?
  }

  /** Slot `j` of instruction `u`, when the loads in `done` have been replaced. */
  ghost predicate SlotIs(code: FullCode, sources: seq<map<nat, Site>>, slots: Slots, done: set<Site>, u: Site, j: nat)
    requires SlotsFit(code, slots) && |sources| == |code| && InCode(code, u) && j < |slots[u.block][u.index]|
  {
    var o, a := OldSlots(At(code, u))[j], slots[u.block][u.index][j];
    && (forall l: Site :: l in done && o.Reg? && LoadsAt(code, l, o.r) && l.index in sources[l.block] && InCode(code, sources[l.block][l.index]) ==>
          a == Entry(code, slots, sources[l.block][l.index]))
    && ((o.Imm? || forall l: Site :: l in done ==> !LoadsAt(code, l, o.r)) ==> a == Same(o))
  }

  /** All slots are as they should be after the loads in `done`: none of these is used any more. */
  ghost predicate Replaced(g: Graph, code: FullCode, sources: seq<map<nat, Site>>, slots: Slots, done: set<Site>) {
    && SlotsFit(code, slots) && |sources| == |code|
    && forall b: nat, k: nat, j: nat :: b < |code| && k < |code[b]| && j < |slots[b][k]| ==> ReplacedAt(g, code, sources, slots, done, Site(b, k), j)
  }

  ghost predicate ReplacedAt(g: Graph, code: FullCode, sources: seq<map<nat, Site>>, slots: Slots, done: set<Site>, u: Site, j: nat)
    requires SlotsFit(code, slots) && |sources| == |code| && InCode(code, u) && j < |slots[u.block][u.index]|
  {
    && SlotIs(code, sources, slots, done, u, j)
    && Dominated(g, code, u, slots[u.block][u.index][j])
    && forall l: Site :: l in done ==> !UsesLoad(code, l, slots[u.block][u.index][j])
  }

  predicate UsesLoad(code: FullCode, l: Site, a: Arg) {
    a.Same? && a.o.Reg? && LoadsAt(code, l, a.o.r)
  }

  function Subst(a: Arg, r: nat, x: Arg): Arg {
    if a == Same(F.Reg(r)) then x else a
  }

  function SubstArgs(args: seq<Arg>, r: nat, x: Arg): (s: seq<Arg>)
    ensures |s| == |args| && forall j :: 0 <= j < |s| ==> s[j] == Subst(args[j], r, x)
  {
    seq(|args|, j requires 0 <= j < |args| => Subst(args[j], r, x))
  }

  function SubstBlock(args: seq<seq<Arg>>, r: nat, x: Arg): (s: seq<seq<Arg>>)
    ensures |s| == |args| && forall k :: 0 <= k < |s| ==> s[k] == SubstArgs(args[k], r, x)
  {
    seq(|args|, k requires 0 <= k < |args| => SubstArgs(args[k], r, x))
  }

  /** Every use of register `r` is reset to `x`. */
  function SubstAll(slots: Slots, r: nat, x: Arg): (s: Slots)
    ensures |s| == |slots| && forall b :: 0 <= b < |s| ==> s[b] == SubstBlock(slots[b], r, x)
  {
    seq(|slots|, b requires 0 <= b < |slots| => SubstBlock(slots[b], r, x))
  }

  function InitialArgs(i: Full): (s: seq<Arg>)
    ensures |s| == |OldSlots(i)| && forall j :: 0 <= j < |s| ==> s[j] == Same(OldSlots(i)[j])
  {
    seq(|OldSlots(i)|, j requires 0 <= j < |OldSlots(i)| => Same(OldSlots(i)[j]))
  }

  function InitialBlock(code: seq<Full>): (s: seq<seq<Arg>>)
    ensures |s| == |code| && forall k :: 0 <= k < |s| ==> s[k] == InitialArgs(code[k])
  {
    seq(|code|, k requires 0 <= k < |code| => InitialArgs(code[k]))
  }

  function InitialSlots(code: FullCode): (s: Slots)
    ensures SlotsFit(code, s) && forall b :: 0 <= b < |s| ==> s[b] == InitialBlock(code[b])
  {
    seq(|code|, b requires 0 <= b < |code| => InitialBlock(code[b]))
  }

  // ---- one load ----

  lemma EntrySubst(code: FullCode, slots: Slots, r: nat, x: Arg, s: Site)
    requires SlotsFit(code, slots) && InCode(code, s)
    ensures SlotsFit(code, SubstAll(slots, r, x))
    ensures Entry(code, SubstAll(slots, r, x), s) == Subst(Entry(code, slots, s), r, x)
  {
  }

  /** What the definition of a load gives is produced before the load; it is not the load itself. */
  lemma EntryDominates(g: Graph, code: FullCode, sources: seq<map<nat, Site>>, slots: Slots, done: set<Site>, b: nat, k: nat, r: nat)
    requires AllReachable(g) && |g.succs| == |code| && StrictSsa(g, code) && Answered(g, code, sources) && Replaced(g, code, sources, slots, done)
    requires LoadsAt(code, Site(b, k), r)
    ensures k in sources[b] && InCode(code, sources[b][k])
    ensures var x := Entry(code, slots, sources[b][k]); Dominated(g, code, Site(b, k), x) && x != Same(F.Reg(r))
  {
    assert AnsweredBy(g, code, sources, b, k);
    var s, l := sources[b][k], Site(b, k);
    var x := Entry(code, slots, s);
    var stored := At(code, s).Old? && At(code, s).ins.Store?;
    if stored {
      assert ReplacedAt(g, code, sources, slots, done, s, 0);
      assert Dominated(g, code, s, x);
    }
    forall y | Produces(code, y, x)
      ensures SiteDom(g, y, l)
    {
      if stored {
        SiteDomTransitive(g, y, s, l);
      }
    }
    if x == Same(F.Reg(r)) {
      assert Produces(code, l, x);
      SiteDomIrreflexive(g, l);
    }
  }

  lemma EntryUnused(g: Graph, code: FullCode, sources: seq<map<nat, Site>>, slots: Slots, done: set<Site>, s: Site)
    requires Replaced(g, code, sources, slots, done) && InCode(code, s)
    ensures forall m :: m in done ==> !UsesLoad(code, m, Entry(code, slots, s))
  {
    if At(code, s).Old? && At(code, s).ins.Store? {
      assert ReplacedAt(g, code, sources, slots, done, s, 0);
    }
  }

  lemma SlotReplaced(g: Graph, code: FullCode, sources: seq<map<nat, Site>>, slots: Slots, done: set<Site>, b: nat, k: nat, r: nat, u: Site, j: nat)
    requires StrictSsa(g, code) && SlotsFit(code, slots) && |sources| == |code| && InCode(code, u) && j < |slots[u.block][u.index]|
    requires LoadsAt(code, Site(b, k), r) && Site(b, k) !in done && k in sources[b] && InCode(code, sources[b][k])
    requires SlotIs(code, sources, slots, done, u, j) && Entry(code, slots, sources[b][k]) != Same(F.Reg(r))
    ensures var slots' := SubstAll(slots, r, Entry(code, slots, sources[b][k]));
            SlotsFit(code, slots') && SlotIs(code, sources, slots', done + {Site(b, k)}, u, j)
  {
    var l, s := Site(b, k), sources[b][k];
    var x := Entry(code, slots, s);
    var slots' := SubstAll(slots, r, x);
    EntrySubst(code, slots, r, x, s);
    var o, a, a' := OldSlots(At(code, u))[j], slots[u.block][u.index][j], slots'[u.block][u.index][j];
    assert a' == Subst(a, r, x);
    hide Entry;
    forall m: Site | m in done + {l} && o.Reg? && LoadsAt(code, m, o.r) && m.index in sources[m.block] && InCode(code, sources[m.block][m.index])
      ensures a' == Entry(code, slots', sources[m.block][m.index])
    {
      EntrySubst(code, slots, r, x, sources[m.block][m.index]);
      if m == l {
        forall n: Site | n in done
          ensures !LoadsAt(code, n, o.r)
        {
          OneLoad(g, code, l, n, r);
        }
      }
    }
  }

  lemma ReplaceOne(g: Graph, code: FullCode, sources: seq<map<nat, Site>>, slots: Slots, done: set<Site>, b: nat, k: nat, r: nat, u: Site, j: nat)
    requires AllReachable(g) && |g.succs| == |code| && StrictSsa(g, code) && Answered(g, code, sources) && Replaced(g, code, sources, slots, done)
    requires LoadsAt(code, Site(b, k), r) && Site(b, k) !in done && InCode(code, u) && j < |slots[u.block][u.index]|
    ensures k in sources[b] && InCode(code, sources[b][k])
    ensures var slots' := SubstAll(slots, r, Entry(code, slots, sources[b][k]));
            SlotsFit(code, slots') && ReplacedAt(g, code, sources, slots', done + {Site(b, k)}, u, j)
  {
    EntryDominates(g, code, sources, slots, done, b, k, r);
    var l, s := Site(b, k), sources[b][k];
    var x := Entry(code, slots, s);
    var slots' := SubstAll(slots, r, x);
    EntrySubst(code, slots, r, x, s);
    assert ReplacedAt(g, code, sources, slots, done, u, j);
    var o, a, a' := OldSlots(At(code, u))[j], slots[u.block][u.index][j], slots'[u.block][u.index][j];
    assert a' == Subst(a, r, x);
    EntryUnused(g, code, sources, slots, done, s);
    hide StrictSsa, Answered, Replaced, Entry;
    assert Dominated(g, code, u, a') by {
      if a == Same(F.Reg(r)) {
        assert Produces(code, l, a);
        forall y | Produces(code, y, x)
          ensures SiteDom(g, y, u)
        {
          SiteDomTransitive(g, y, l, u);
        }
      }
    }
    assert SlotIs(code, sources, slots', done + {l}, u, j) by {
      SlotReplaced(g, code, sources, slots, done, b, k, r, u, j);
    }
    forall m | m in done + {l}
      ensures !UsesLoad(code, m, a')
    {
      OneLoad(g, code, l, m, r);
    }
  }

  lemma OneLoad(g: Graph, code: FullCode, l: Site, m: Site, r: nat)
    requires StrictSsa(g, code) && LoadsAt(code, l, r)
    ensures LoadsAt(code, m, r) ==> m == l
  {
    assert AssignsAt(code, l, r);
    assert LoadsAt(code, m, r) ==> AssignsAt(code, m, r);
  }

  lemma ReplaceAll(g: Graph, code: FullCode, sources: seq<map<nat, Site>>, slots: Slots, done: set<Site>, b: nat, k: nat, r: nat)
    requires AllReachable(g) && |g.succs| == |code| && StrictSsa(g, code) && Answered(g, code, sources) && Replaced(g, code, sources, slots, done)
    requires LoadsAt(code, Site(b, k), r) && Site(b, k) !in done
    ensures k in sources[b] && InCode(code, sources[b][k])
    ensures Replaced(g, code, sources, SubstAll(slots, r, Entry(code, slots, sources[b][k])), done + {Site(b, k)})
  {
    EntryDominates(g, code, sources, slots, done, b, k, r);
    var x := Entry(code, slots, sources[b][k]);
    EntrySubst(code, slots, r, x, sources[b][k]);
    var slots' := SubstAll(slots, r, x);
    forall c: nat, i: nat, j: nat | c < |code| && i < |code[c]| && j < |slots'[c][i]|
      ensures ReplacedAt(g, code, sources, slots', done + {Site(b, k)}, Site(c, i), j)
    {
      ReplaceOne(g, code, sources, slots, done, b, k, r, Site(c, i), j);
    }
  }

  lemma NothingReplaced(g: Graph, code: FullCode, sources: seq<map<nat, Site>>)
    requires StrictSsa(g, code) && |sources| == |code|
    ensures Replaced(g, code, sources, InitialSlots(code), {})
  {
    var slots := InitialSlots(code);
    forall b: nat, k: nat, j: nat | b < |code| && k < |code[b]| && j < |slots[b][k]|
      ensures ReplacedAt(g, code, sources, slots, {}, Site(b, k), j)
    {
      var u, a := Site(b, k), slots[b][k][j];
      assert slots[b] == InitialBlock(code[b]) && slots[b][k] == InitialArgs(code[b][k]);
      assert a == Same(OldSlots(code[b][k])[j]);
      forall x | Produces(code, x, a)
        ensures SiteDom(g, x, u)
      {
        assert UsesAt(code, u, a.o.r);
      }
    }
  }

  // ---- the pass ----

  predicate IsLoad(i: Full) {
    i.Old? && i.ins.Load?
  }

  ghost predicate Done(code: FullCode, done: set<Site>, blocks: seq<nat>, b: nat, k: nat) {
    forall l: Site :: l in done <==> InCode(code, l) && IsLoad(At(code, l)) && (l.block in blocks || (l.block == b && l.index < k))
  }

  /** All loads. */
  ghost function Loads(code: FullCode): (s: set<Site>)
    ensures forall l: Site :: l in s <==> InCode(code, l) && IsLoad(At(code, l))
  {
    set b: nat, k: nat | b < |code| && k < |code[b]| && IsLoad(code[b][k]) :: Site(b, k)
  }

  /** Visit the blocks in depth-first order and reset the uses of every load to what its definition gives. */
  method ResetUses(ghost g: Graph, code: FullCode, sources: seq<map<nat, Site>>, order: seq<nat>) returns (slots: Slots)
    requires AllReachable(g) && |g.succs| == |code| == |sources| && StrictSsa(g, code) && Answered(g, code, sources)
    requires (forall b: nat :: b in order <==> b < |code|) && forall i, j :: 0 <= i < j < |order| ==> order[i] != order[j]
    ensures Replaced(g, code, sources, slots, Loads(code))
  {
    hide Replaced, StrictSsa, Answered;
    slots := InitialSlots(code);
    ghost var done: set<Site> := {};
    NothingReplaced(g, code, sources);
    for i := 0 to |order|
      invariant Done(code, done, order[..i], 0, 0) && Replaced(g, code, sources, slots, done)
    {
      var b := order[i];
      assert b in order;
      assert order[..i + 1] == order[..i] + [b];
      assert b !in order[..i];
      for k := 0 to |code[b]|
        invariant Done(code, done, order[..i], b, k) && Replaced(g, code, sources, slots, done)
      {
        if IsLoad(code[b][k]) {
          var r := code[b][k].ins.dst;
          ReplaceAll(g, code, sources, slots, done, b, k, r);
          ReplacedFits(g, code, sources, slots, done);
          slots := SubstAll(slots, r, Entry(code, slots, sources[b][k]));
          done := done + {Site(b, k)};
        }
      }
    }
    assert order[..|order|] == order;
    assert done == Loads(code);
  }

  lemma ReplacedFits(g: Graph, code: FullCode, sources: seq<map<nat, Site>>, slots: Slots, done: set<Site>)
    requires Replaced(g, code, sources, slots, done)
    ensures SlotsFit(code, slots) && |sources| == |code|
  {
  }
}
