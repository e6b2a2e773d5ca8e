/**
 Runs before and after promotion. Before, stores and loads go through memory. After, phis take a
 value when their block is entered, all at once, and nothing is stored any more. Whatever
 path a run takes, the other instructions see the same operand values in both.
 */
module PromotedRuns {
  import opened Digraph
  import opened DominanceFrontier
  import F = InBlockForwarding
  import opened Options
  import opened PromotedCode
  import opened ReachingDefinitions
  import opened SiteOrder

  // ---- before ----

  /** A run through memory, with the value last produced by every instruction and the last definition of every variable. */
  datatype Track = Track(st: F.State, val: map<Site, int>, last: map<nat, Site>)

  ghost function Through(i: Full, x: Site, t: Track, f: F.Effect): Track {
    match i
    case NewPhi(v) => t.(val := t.val[x := F.Read(t.st.mem, v)], last := t.last[v := x])
    case NewInit(v) => t.(val := t.val[x := F.Read(t.st.mem, v)], last := t.last[v := x])
    case Old(Store(v, src)) =>
      Track(F.Step(i.ins, t.st, f), t.val[x := F.Value(src, t.st.regs)], t.last[v := x])
    case Old(Load(_, v)) => Track(F.Step(i.ins, t.st, f), t.val[x := F.Read(t.st.mem, v)], t.last)
    case Old(Op(_, _)) => t.(st := F.Step(i.ins, t.st, f))
  }

  /** The instructions of block `b` before position `i`. */
  ghost function ThroughBlock(code: seq<Full>, b: nat, i: nat, t: Track, f: F.Effect): Track
    requires i <= |code|
  {
    if i == 0 then t else Through(code[i - 1], Site(b, i - 1), ThroughBlock(code, b, i - 1, t, f), f)
  }

  ghost predicate OnCode(code: FullCode, p: seq<nat>) {
    forall k :: 0 <= k < |p| ==> p[k] < |code|
  }

  ghost function ThroughPath(code: FullCode, p: seq<nat>, t: Track, f: F.Effect): Track
    requires OnCode(code, p)
  {
    if p == [] then t
    else
      var b := p[|p| - 1];
      ThroughBlock(code[b], b, |code[b]|, ThroughPath(code, p[..|p| - 1], t, f), f)
  }

  // ---- after ----

  /** Registers, the values of phis and initial loads, and what the other instructions have seen. */
  datatype Promo = Promo(regs: map<nat, int>, made: map<Site, int>, trace: seq<seq<int>>)

  /** The code after promotion. `gone` are the new instructions that have been dropped again. */
  datatype Result = Result(code: FullCode, slots: Slots, phis: seq<map<nat, set<Site>>>, gone: set<Site>)

  ghost predicate Fits(r: Result) {
    SlotsFit(r.code, r.slots) && |r.phis| == |r.code| && forall b, k, s :: 0 <= b < |r.code| && k in r.phis[b] && s in r.phis[b][k] ==> InCode(r.code, s)
  }

  ghost function MadeValue(made: map<Site, int>, s: Site): int {
    if s in made then made[s] else 0
  }

  ghost function ArgValue(a: Arg, s: Promo): int {
    match a
    case Same(o) => F.Value(o, s.regs)
    case Made(x) => MadeValue(s.made, x)
  }

  ghost function ArgValues(args: seq<Arg>, s: Promo): (r: seq<int>)
    ensures |r| == |args| && forall k :: 0 <= k < |args| ==> r[k] == ArgValue(args[k], s)
  {
    seq(|args|, k requires 0 <= k < |args| => ArgValue(args[k], s))
  }

  /** Of the definitions in `from`, the one whose block was visited last. */
  ghost function Latest(p: seq<nat>, from: set<Site>): Option<Site> {
    if p == [] then None
    else if s :| s in from && s.block == p[|p| - 1] then Some(s)
    else Latest(p[..|p| - 1], from)
  }

  ghost function PhiSites(code: FullCode, b: nat): set<Site>
    requires b < |code|
  {
    set k: nat | k < |code[b]| && code[b][k].NewPhi? :: Site(b, k)
  }

  /** The value that phi `x` takes after the path `p`. */
  ghost function Taken(r: Result, p: seq<nat>, s: Promo, x: Site): int
    requires Fits(r)
  {
    if x.block < |r.phis| && x.index in r.phis[x.block] && Latest(p, r.phis[x.block][x.index]).Some?
       && InCode(r.code, Latest(p, r.phis[x.block][x.index]).value) then
      ArgValue(Entry(r.code, r.slots, Latest(p, r.phis[x.block][x.index]).value), s)
    else 0
  }

  /** Block `b` is entered after the path `p`. */
  ghost function Enter(r: Result, p: seq<nat>, b: nat, s: Promo): Promo
    requires Fits(r) && b < |r.code|
  {
    var news := PhiSites(r.code, b) - r.gone;
    s.(made := map x | x in s.made.Keys + news :: if x in news then Taken(r, p, s, x) else s.made[x])
  }

  ghost function After(r: Result, x: Site, s: Promo, mem: map<nat, int>, f: F.Effect): Promo
    requires Fits(r) && InCode(r.code, x)
  {
    match At(r.code, x)
    case NewPhi(_) => s
    case NewInit(v) => if x in r.gone then s else s.(made := s.made[x := F.Read(mem, v)])
    case Old(Op(dst, _)) =>
      var trace := s.trace + [ArgValues(r.slots[x.block][x.index], s)];
      s.(trace := trace, regs := s.regs[dst := f(trace)])
    case Old(_) => s
  }

  ghost function AfterBlock(r: Result, b: nat, i: nat, s: Promo, mem: map<nat, int>, f: F.Effect): Promo
    requires Fits(r) && b < |r.code| && i <= |r.code[b]|
  {
    if i == 0 then s else After(r, Site(b, i - 1), AfterBlock(r, b, i - 1, s, mem, f), mem, f)
  }

  ghost function AfterPath(r: Result, p: seq<nat>, s: Promo, mem: map<nat, int>, f: F.Effect): Promo
    requires Fits(r) && OnCode(r.code, p)
  {
    if p == [] then s
    else
      var b, q := p[|p| - 1], p[..|p| - 1];
      AfterBlock(r, b, |r.code[b]|, Enter(r, q, b, AfterPath(r, q, s, mem, f)), mem, f)
  }

  // ---- the last definition ----

  ghost function AsOption(last: map<nat, Site>, v: nat): Option<Site> {
    if v in last then Some(last[v]) else None
  }

  lemma {:induction false} BlockTracksLast(code: seq<Full>, b: nat, i: nat, t: Track, f: F.Effect, v: nat)
    requires i <= |code|
    ensures AsOption(ThroughBlock(code, b, i, t, f).last, v) ==
            if LastDef(BlockShapes(code)[..i], v).Some? then Some(Site(b, LastDef(BlockShapes(code)[..i], v).value)) else AsOption(t.last, v)
  {
    if i > 0 {
      BlockTracksLast(code, b, i - 1, t, f, v);
      assert BlockShapes(code)[..i][..i - 1] == BlockShapes(code)[..i - 1];
    }
  }

  lemma {:induction false} PathTracksLast(code: FullCode, p: seq<nat>, t: Track, f: F.Effect, v: nat)
    requires OnCode(code, p) && t.last == map[]
    ensures AsOption(ThroughPath(code, p, t, f).last, v) == Reaching(Shapes(code), v, p)
  {
    if p != [] {
      var b := p[|p| - 1];
      PathTracksLast(code, p[..|p| - 1], t, f, v);
      BlockTracksLast(code[b], b, |code[b]|, ThroughPath(code, p[..|p| - 1], t, f), f, v);
      assert BlockShapes(code[b])[..|code[b]|] == BlockShapes(code[b]);
    }
  }
}
