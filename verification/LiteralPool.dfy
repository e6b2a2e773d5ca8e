/**
 Labels of literals in the emitted code. Constants, addresses of globals and addresses of
 floating point constants are kept in pools between the instructions; a pool is emitted after
 every 512 instructions and at the end of every function.
 */
module LiteralPool {
  import opened Options

  /** `.IMM.n`, `GlobAddrn.v`, `.J_FPn_v`, `.LBDATA.n`. */
  datatype Label = Imm(n: nat) | Glob(n: nat, version: nat) | Fp(n: nat, version: nat) | Skip(n: nat)

  /** What stands behind a label: `.long` of a constant, of a global, of `.FloatConstantn`, or the code after a pool. */
  datatype Word = Constant(imm: int) | Address(variable: nat) | FloatAddress(index: nat) | Here

  /** A label, and what the instruction that refers to it expects behind it. */
  datatype Literal = Literal(name: Label, word: Word)

  /** What is emitted, in this order. */
  datatype Item = Instr(ref: Option<Literal>) | Def(lit: Literal)

  const INTERVAL: nat := 512

  function Instrs(t: seq<Item>): nat {
    if t == [] then 0 else Instrs(t[..|t| - 1]) + (if t[|t| - 1].Instr? then 1 else 0)
  }

  lemma {:induction false} InstrsSum(a: seq<Item>, b: seq<Item>)
    ensures Instrs(a + b) == Instrs(a) + Instrs(b)
  {
    if b == [] {
      assert a + b == a;
    } else {
      assert (a + b)[..|a + b| - 1] == a + b[..|b| - 1];
      InstrsSum(a, b[..|b| - 1]);
    }
  }

  /** Instruction `r` refers to a label that is defined later, as the word it expects and in a pool at most 512 instructions away. */
  ghost predicate Served(t: seq<Item>, r: nat) {
    r < |t| && t[r].Instr? && t[r].ref.Some? && exists d: nat :: ServedAt(t, r, d)
  }

  ghost predicate ServedAt(t: seq<Item>, r: nat, d: nat)
    requires r < |t| && t[r].Instr? && t[r].ref.Some?
  {
    r < d < |t| && t[d] == Def(t[r].ref.value) && Instrs(t[r + 1..d]) <= 512
  }

  ghost predicate DefinedOnce(t: seq<Item>) {
    forall i, j :: 0 <= i < j < |t| && t[i].Def? && t[j].Def? ==> t[i].lit.name != t[j].lit.name
  }

  /** The items define exactly these literals, each label once. */
  ghost predicate Defines(section: seq<Item>, literals: set<Literal>) {
    && (forall k :: 0 <= k < |section| ==> section[k].Def? && section[k].lit in literals)
    && (forall l :: l in literals ==> Def(l) in section)
    && DefinedOnce(section)
  }

  ghost predicate Apart(x: set<Literal>, y: set<Literal>) {
    forall l, m :: l in x && m in y ==> l.name != m.name
  }

  lemma DefinesBoth(a: seq<Item>, x: set<Literal>, b: seq<Item>, y: set<Literal>)
    requires Defines(a, x) && Defines(b, y) && Apart(x, y)
    ensures Defines(a + b, x + y)
  {
    var s := a + b;
    forall k | 0 <= k < |s|
      ensures s[k].Def? && s[k].lit in x + y
    {
    }
    forall i, j | 0 <= i < j < |s| && s[i].Def? && s[j].Def?
      ensures s[i].lit.name != s[j].lit.name
    {
      if i < |a| <= j {
        assert s[i].lit in x && s[j].lit in y;
      }
    }
  }

  lemma NoInstrs(section: seq<Item>, literals: set<Literal>)
    requires Defines(section, literals)
    ensures Instrs(section) == 0
  {
    if section != [] {
      var n := |section| - 1;
      assert section[n].Def?;
      NoInstrsAt(section, n);
    }
  }

  lemma {:induction false} NoInstrsAt(section: seq<Item>, n: nat)
    requires n < |section| && forall k :: 0 <= k < |section| ==> section[k].Def?
    ensures Instrs(section[..n + 1]) == 0
    ensures Instrs(section) == Instrs(section[..n + 1]) + Instrs(section[n + 1..])
  {
    InstrsSum(section[..n + 1], section[n + 1..]);
    assert section == section[..n + 1] + section[n + 1..];
    assert section[..n + 1][..n] == section[..n];
    if n > 0 {
      NoInstrsAt(section, n - 1);
    }
  }

  lemma Inhabited<T>(s: set<T>) returns (x: T)
    requires s != {}
    ensures x in s
  {
    x :| x in s;
  }

  // ---- the state of the generator ----

  datatype Name = Name(id: nat, version: nat)

  /** What is waiting for the next pool, and the counters. */
  datatype Pools = Pools(imms: map<int, nat>, globals: map<nat, Name>, floats: map<nat, nat>, nextImmId: nat, nrGlobVar: nat, nextLabelId: nat)

  function Immediate(s: Pools, i: int): Literal
    requires i in s.imms
  {
    Literal(Imm(s.imms[i]), Constant(i))
  }

  function Global(s: Pools, g: nat): Literal
    requires g in s.globals
  {
    Literal(Glob(s.globals[g].id, s.globals[g].version), Address(g))
  }

  function Float(s: Pools, f: nat): Literal
    requires f in s.floats
  {
    Literal(Fp(f, s.floats[f]), FloatAddress(f))
  }

  ghost function Immediates(s: Pools): set<Literal> {
    set i: int | i in s.imms :: Immediate(s, i)
  }

  ghost function Globals(s: Pools): set<Literal> {
    set g | g in s.globals :: Global(s, g)
  }

  ghost function Floats(s: Pools): set<Literal> {
    set f | f in s.floats :: Float(s, f)
  }

  /** What the next pool has to define. */
  ghost function Pending(s: Pools): set<Literal> {
    Immediates(s) + Floats(s) + Globals(s)
  }

  /** Labels that have been used up. */
  ghost predicate Old(s: Pools, l: Label) {
    match l
    case Imm(n) => n < s.nextImmId && forall i :: i in s.imms ==> s.imms[i] != n
    case Glob(n, v) => n < s.nrGlobVar && forall g :: g in s.globals && s.globals[g].id == n ==> v < s.globals[g].version
    case Fp(n, v) => n in s.floats && v < s.floats[n]
    case Skip(n) => n < s.nextLabelId
  }

  /** Every label that is defined has been used up. */
  ghost predicate Retired(t: seq<Item>, s: Pools) {
    forall k :: 0 <= k < |t| && t[k].Def? ==> Old(s, t[k].lit.name)
  }

  ghost predicate Consistent(s: Pools) {
    && (forall i :: i in s.imms ==> s.imms[i] < s.nextImmId)
    && (forall i, j :: i in s.imms && j in s.imms && i != j ==> s.imms[i] != s.imms[j])
    && (forall g :: g in s.globals ==> s.globals[g].id < s.nrGlobVar)
    && (forall g, h :: g in s.globals && h in s.globals && g != h ==> s.globals[g].id != s.globals[h].id)
  }

  /** The labels of the globals with new versions. */
  ghost function Refreshed(globals: map<nat, Name>): map<nat, Name> {
    map g | g in globals :: Name(globals[g].id, globals[g].version + 1)
  }

  /**
   After a refresh the labels of all globals are used up, the same globals have labels that never were in
   use, and no two of them share a label.
   */
  lemma RefreshRetires(s: Pools)
    requires Consistent(s)
    ensures var s' := s.(globals := Refreshed(s.globals));
            && (forall l :: Old(s, l) ==> Old(s', l)) && (forall l :: l in Globals(s) ==> Old(s', l.name))
            && s'.globals.Keys == s.globals.Keys && Consistent(s')
            && (forall l :: l in Globals(s') ==> !Old(s', l.name)) && Apart(Globals(s), Globals(s'))
  {
    var s' := s.(globals := Refreshed(s.globals));
    forall l, m | l in Globals(s) && m in Globals(s')
      ensures l.name != m.name
    {
      assert Old(s', l.name) && !Old(s', m.name);
    }
  }

  /** After a pool: immediates are forgotten, and the other labels get new versions. */
  ghost function Flushed(s: Pools): Pools {
    s.(imms := map[],
       globals := Refreshed(s.globals),
       floats := map f | f in s.floats :: s.floats[f] + 1)
  }

  /** The label after the pool. */
  function Landing(s: Pools): Literal {
    Literal(Skip(s.nextLabelId), Here)
  }

  lemma FlushedConsistent(s: Pools)
    requires Consistent(s)
    ensures Consistent(Flushed(s))
    ensures forall l :: Old(s, l) ==> Old(Flushed(s), l)
    ensures forall l :: l in Pending(s) ==> Old(Flushed(s), l.name)
  {
  }

  lemma PendingIsNew(s: Pools, l: Literal)
    requires Consistent(s) && l in Pending(s)
    ensures !Old(s, l.name)
  {
  }

  /** Whatever has been referred to is defined in time, or waits for the next pool, which will be in time. */
  ghost predicate Sound(t: seq<Item>, s: Pools, cursor: nat) {
    && Consistent(s) && DefinedOnce(t)
    && Retired(t, s)
    && (forall r :: 0 <= r < |t| && t[r].Instr? && t[r].ref.Some? ==> Served(t, r) || Waits(t, s, cursor, r))
  }

  ghost predicate Waits(t: seq<Item>, s: Pools, cursor: nat, r: nat)
    requires r < |t| && t[r].Instr? && t[r].ref.Some?
  {
    t[r].ref.value in Pending(s) && Instrs(t[r + 1..]) < cursor
  }

  lemma ServedStays(t: seq<Item>, more: seq<Item>, r: nat)
    requires Served(t, r)
    ensures Served(t + more, r)
  {
    var d: nat :| ServedAt(t, r, d);
    assert (t + more)[r + 1..d] == t[r + 1..d];
    assert ServedAt(t + more, r, d);
  }

  /** One more instruction, referring to a pending label or to none. */
  lemma SoundInstr(t: seq<Item>, s: Pools, cursor: nat, ref: Option<Literal>)
    requires Sound(t, s, cursor) && (ref.Some? ==> ref.value in Pending(s))
    ensures Sound(t + [Instr(ref)], s, cursor + 1)
  {
    var t' := t + [Instr(ref)];
    forall r | 0 <= r < |t'| && t'[r].Instr? && t'[r].ref.Some?
      ensures Served(t', r) || Waits(t', s, cursor + 1, r)
    {
      if r < |t| {
        if Served(t, r) {
          ServedStays(t, [Instr(ref)], r);
        } else {
          assert t'[r + 1..] == t[r + 1..] + [Instr(ref)];
          InstrsSum(t[r + 1..], [Instr(ref)]);
          OneInstr(Instr(ref));
        }
      } else {
        assert t'[r + 1..] == [];
      }
    }
  }

  lemma OneInstr(i: Item)
    ensures Instrs([i]) == if i.Instr? then 1 else 0
  {
    assert [i][..0] == [];
  }

  /** The pool comes: everything that waits is served. `skip` is the jump over the pool, if there is one. */
  lemma SoundFlush(t: seq<Item>, s: Pools, cursor: nat, skip: seq<Item>, section: seq<Item>, after: nat)
    requires Sound(t, s, cursor) && cursor <= INTERVAL && Defines(section, Pending(s))
    requires skip == [] || skip == [Instr(Some(Landing(s)))]
    ensures skip == [] ==> Sound(t + section, Flushed(s), after)
    ensures skip != [] ==> Sound(t + skip + section + [Def(Landing(s))], Flushed(s).(nextLabelId := s.nextLabelId + 1), after)
  {
    hide Pending, Defines, Old, DefinedOnce, Served, Consistent, Waits;
    var land: seq<Item> := if skip == [] then [] else [Def(Landing(s))];
    var s' := Flushed(s).(nextLabelId := s.nextLabelId + |skip|);
    var t' := t + skip + section + land;
    FlushedConsistent(s);
    NoInstrs(section, Pending(s));
    AllOld(t, s, skip, section, land);
    OnceAfterFlush(t, s, skip, section, land);
    forall r | 0 <= r < |t'| && t'[r].Instr? && t'[r].ref.Some?
      ensures Served(t', r)
    {
      ServedByFlush(t, s, cursor, skip, section, land, r);
    }
    assert Sound(t', s', after);
    assert skip == [] ==> t' == t + section && s' == Flushed(s);
  }

  lemma LandingOld(s: Pools, n: nat)
    requires Consistent(s) && n <= 1
    ensures var s' := Flushed(s).(nextLabelId := s.nextLabelId + n);
            Consistent(s') && (forall l :: Old(Flushed(s), l) ==> Old(s', l)) && (n == 1 ==> Old(s', Landing(s).name))
  {
    FlushedConsistent(s);
  }

  lemma RetiredBoth(a: seq<Item>, b: seq<Item>, s: Pools)
    requires Retired(a, s) && Retired(b, s)
    ensures Retired(a + b, s)
  {
    hide Old;
  }

  lemma AllOld(t: seq<Item>, s: Pools, skip: seq<Item>, section: seq<Item>, land: seq<Item>)
    requires Consistent(s) && Retired(t, s) && Defines(section, Pending(s))
    requires skip == [] || skip == [Instr(Some(Landing(s)))]
    requires land == if skip == [] then [] else [Def(Landing(s))]
    ensures var s' := Flushed(s).(nextLabelId := s.nextLabelId + |skip|);
            Consistent(s') && Retired(t + skip + section + land, s')
  {
    FlushedConsistent(s);
    LandingOld(s, |skip|);
    hide Consistent, Pending, Old, Flushed;
    var s' := Flushed(s).(nextLabelId := s.nextLabelId + |skip|);
    RetiredBoth(t, skip, s');
    RetiredBoth(t + skip, section, s');
    RetiredBoth(t + skip + section, land, s');
  }

  lemma OnceAfterFlush(t: seq<Item>, s: Pools, skip: seq<Item>, section: seq<Item>, land: seq<Item>)
    requires Consistent(s) && DefinedOnce(t) && Retired(t, s) && Defines(section, Pending(s))
    requires skip == [] || skip == [Instr(Some(Landing(s)))]
    requires land == if skip == [] then [] else [Def(Landing(s))]
    ensures DefinedOnce(t + skip + section + land)
  {
    var u := t + skip;
    OnceThen(t, skip);
    forall i, j | 0 <= i < |u| && 0 <= j < |section| && u[i].Def? && section[j].Def?
      ensures u[i].lit.name != section[j].lit.name
    {
      assert u[i] == t[i] && Old(s, u[i].lit.name);
      PendingIsNew(s, section[j].lit);
    }
    OnceThen(u, section);
    var w := u + section;
    forall i, j | 0 <= i < |w| && 0 <= j < |land| && w[i].Def? && land[j].Def?
      ensures w[i].lit.name != land[j].lit.name
    {
      assert w[i] in t || w[i] in section;
    }
    OnceThen(w, land);
  }

  lemma OnceThen(a: seq<Item>, b: seq<Item>)
    requires DefinedOnce(a) && DefinedOnce(b)
    requires forall i, j :: 0 <= i < |a| && 0 <= j < |b| && a[i].Def? && b[j].Def? ==> a[i].lit.name != b[j].lit.name
    ensures DefinedOnce(a + b)
  {
    var c := a + b;
    forall i, j | 0 <= i < j < |c| && c[i].Def? && c[j].Def?
      ensures c[i].lit.name != c[j].lit.name
    {
      if i < |a| <= j {
        assert c[i] == a[i] && c[j] == b[j - |a|];
      }
    }
  }

  lemma ServedByFlush(t: seq<Item>, s: Pools, cursor: nat, skip: seq<Item>, section: seq<Item>, land: seq<Item>, r: nat)
    requires Sound(t, s, cursor) && cursor <= INTERVAL && Defines(section, Pending(s))
    requires skip == [] || skip == [Instr(Some(Landing(s)))]
    requires land == if skip == [] then [] else [Def(Landing(s))]
    requires var t' := t + skip + section + land; r < |t'| && t'[r].Instr? && t'[r].ref.Some?
    ensures Served(t + skip + section + land, r)
  {
    var t' := t + skip + section + land;
    var after := skip + section + land;
    assert t' == t + after;
    if r < |t| {
      if Served(t, r) {
        ServedStays(t, after, r);
      } else {
        var l := t[r].ref.value;
        assert Waits(t, s, cursor, r);
        assert Def(l) in section;
        var k :| 0 <= k < |section| && section[k] == Def(l);
        ServedInSection(t, skip, section, land, r, k, cursor);
      }
    } else {
      SkipServed(t, skip, section, land, r);
    }
  }

  lemma ServedAcross(before: seq<Item>, i: Item, between: seq<Item>, d: Item, after: seq<Item>)
    requires i.Instr? && i.ref.Some? && d == Def(i.ref.value) && Instrs(between) <= INTERVAL
    ensures Served(before + [i] + between + [d] + after, |before|)
  {
    var t, r, at: nat := before + [i] + between + [d] + after, |before|, |before| + 1 + |between|;
    assert t[r] == i && t[at] == d;
    assert t[r + 1..at] == between;
    assert ServedAt(t, r, at);
  }

  lemma AtIndex(s: seq<Item>, k: nat)
    requires k < |s|
    ensures s == s[..k] + [s[k]] + s[k + 1..]
  {
  }

  lemma ServedInSection(t: seq<Item>, skip: seq<Item>, section: seq<Item>, land: seq<Item>, r: nat, k: nat, cursor: nat)
    requires r < |t| && t[r].Instr? && t[r].ref.Some? && k < |section| && section[k] == Def(t[r].ref.value)
    requires Instrs(t[r + 1..]) < cursor <= INTERVAL && |skip| <= 1 && forall j :: 0 <= j < |section| ==> section[j].Def?
    ensures Served(t + skip + section + land, r)
  {
    hide Served;
    var between := t[r + 1..] + skip + section[..k];
    BetweenShort(t[r + 1..], skip, section, k, cursor);
    ServedAcross(t[..r], t[r], between, section[k], section[k + 1..] + land);
    hide Instrs;
    assert t + skip + section + land == t[..r] + [t[r]] + between + [section[k]] + (section[k + 1..] + land) by {
      AtIndex(t, r);
      AtIndex(section, k);
    }
  }

  lemma BetweenShort(rest: seq<Item>, skip: seq<Item>, section: seq<Item>, k: nat, cursor: nat)
    requires k < |section| && Instrs(rest) < cursor <= INTERVAL && |skip| <= 1 && forall j :: 0 <= j < |section| ==> section[j].Def?
    ensures Instrs(rest + skip + section[..k]) <= INTERVAL
  {
    InstrsSum(rest, skip);
    InstrsSum(rest + skip, section[..k]);
    if skip != [] {
      OneInstr(skip[0]);
      assert skip == [skip[0]];
    }
    if k > 0 {
      NoInstrsAt(section, k - 1);
    }
  }

  lemma SkipServed(t: seq<Item>, skip: seq<Item>, section: seq<Item>, land: seq<Item>, r: nat)
    requires (forall j :: 0 <= j < |section| ==> section[j].Def?) && |skip| <= 1 && (skip == [] ==> land == [])
    requires skip != [] ==> skip[0].Instr? && skip[0].ref.Some? && land == [Def(skip[0].ref.value)]
    requires var t' := t + skip + section + land; |t| <= r < |t'| && t'[r].Instr?
    ensures var t' := t + skip + section + land; t'[r].ref.Some? && Served(t', r)
  {
    hide Served;
    var t' := t + skip + section + land;
    assert r == |t| && t'[r] == skip[0];
    if section != [] {
      NoInstrsAt(section, |section| - 1);
      assert section[..|section|] == section;
    }
    ServedAcross(t, skip[0], section, land[0], []);
    assert t' == t + [skip[0]] + section + [land[0]] + [];
  }

  /** Asking for a literal only adds to what waits. */
  lemma SoundMore(t: seq<Item>, s: Pools, s': Pools, cursor: nat)
    requires Sound(t, s, cursor) && Consistent(s') && Pending(s) <= Pending(s')
    requires forall l :: Old(s, l) ==> Old(s', l)
    ensures Sound(t, s', cursor)
  {
    forall r | 0 <= r < |t| && t[r].Instr? && t[r].ref.Some?
      ensures Served(t, r) || Waits(t, s', cursor, r)
    {
      assert Served(t, r) || Waits(t, s, cursor, r);
    }
  }

  lemma MoreImmediates(s: Pools, imm: int)
    requires Consistent(s) && imm !in s.imms
    ensures var s' := s.(imms := s.imms[imm := s.nextImmId], nextImmId := s.nextImmId + 1);
            Consistent(s') && Pending(s) <= Pending(s') && Immediate(s', imm) in Pending(s') && forall l :: Old(s, l) ==> Old(s', l)
  {
    var s' := s.(imms := s.imms[imm := s.nextImmId], nextImmId := s.nextImmId + 1);
    assert imm in s'.imms && s'.imms[imm] == s.nextImmId;
    assert forall i :: i in s.imms ==> i in s'.imms && s'.imms[i] == s.imms[i];
  }

  lemma MoreGlobals(s: Pools, g: nat)
    requires Consistent(s) && g !in s.globals
    ensures var s' := s.(globals := s.globals[g := Name(s.nrGlobVar, 0)], nrGlobVar := s.nrGlobVar + 1);
            Consistent(s') && Pending(s) <= Pending(s') && forall l :: Old(s, l) ==> Old(s', l)
  {
    var s' := s.(globals := s.globals[g := Name(s.nrGlobVar, 0)], nrGlobVar := s.nrGlobVar + 1);
    assert forall i :: i in s.globals ==> i in s'.globals && s'.globals[i] == s.globals[i];
  }

  lemma MoreFloats(s: Pools, f: nat)
    requires Consistent(s) && f !in s.floats
    ensures var s' := s.(floats := s.floats[f := 0]);
            Consistent(s') && Pending(s) <= Pending(s') && forall l :: Old(s, l) ==> Old(s', l)
  {
    var s' := s.(floats := s.floats[f := 0]);
    assert forall i :: i in s.floats ==> i in s'.floats && s'.floats[i] == s.floats[i];
  }

  lemma SoundConsistent(t: seq<Item>, s: Pools, cursor: nat)
    requires Sound(t, s, cursor)
    ensures Consistent(s) && DefinedOnce(t)
  {
  }

  lemma ImmediatePending(s: Pools, imm: int)
    requires imm in s.imms
    ensures Immediate(s, imm) in Pending(s)
  {
  }

  lemma GlobalPending(s: Pools, g: nat)
    requires g in s.globals
    ensures Global(s, g) in Pending(s)
  {
  }

  lemma FloatPending(s: Pools, f: nat)
    requires f in s.floats
    ensures Float(s, f) in Pending(s)
  {
  }

  lemma FlushedFloats(s: Pools)
    ensures Flushed(s).floats.Keys == s.floats.Keys
  {
  }

  lemma NothingWaits(t: seq<Item>, s: Pools, r: nat)
    requires r < |t| && t[r].Instr? && t[r].ref.Some?
    ensures !Waits(t, s, 0, r)
  {
  }

  /** With no instruction since the last pool, nothing waits. */
  lemma EverythingServed(t: seq<Item>, s: Pools)
    requires Sound(t, s, 0)
    ensures forall r :: 0 <= r < |t| && t[r].Instr? && t[r].ref.Some? ==> Served(t, r)
  {
    forall r | 0 <= r < |t| && t[r].Instr? && t[r].ref.Some?
      ensures Served(t, r)
    {
      NothingWaits(t, s, r);
    }
  }

  /** What comes after an instruction that fills the interval: nothing, or a pool with a jump over it. */
  ghost predicate PoolAfter(s: Pools, pool: seq<Item>) {
    if Pending(s) == {} then pool == []
    else exists section: seq<Item> :: Defines(section, Pending(s)) && pool == [Instr(Some(Landing(s)))] + section + [Def(Landing(s))]
  }

  /** The state after the pool that follows a full interval, and how many instructions it took. */
  ghost function AfterPool(s: Pools): Pools {
    if Pending(s) == {} then Flushed(s) else Flushed(s).(nextLabelId := s.nextLabelId + 1)
  }

  /** An instruction is appended to `t`, and a pool, with a jump over it if it is not empty, when it is the 512th one. */
  ghost predicate Emits(t: seq<Item>, s: Pools, cursor: nat, ref: Option<Literal>, pool: seq<Item>, t': seq<Item>, s': Pools, cursor': nat) {
    && t' == t + [Instr(ref)] + pool
    && if cursor + 1 < 512 then pool == [] && s' == s && cursor' == cursor + 1
       else PoolAfter(s, pool) && s' == AfterPool(s) && cursor' == if Pending(s) == {} then 0 else 1
  }

  /** One reference, and one instruction without: the pool comes after the first or after the second one, or later. */
  lemma EmitsTwice(t: seq<Item>, s: Pools, cursor: nat, lit: Literal, pool: seq<Item>, t1: seq<Item>, s1: Pools, cursor1: nat, pool': seq<Item>, t': seq<Item>,
                   s': Pools, cursor': nat)
    requires Emits(t, s, cursor, Some(lit), pool, t1, s1, cursor1) && Emits(t1, s1, cursor1, None, pool', t', s', cursor')
    requires lit in Pending(s) && cursor < 512
    ensures t' == t + [Instr(Some(lit))] + pool + [Instr(None)] + pool'
    ensures if cursor + 1 == 512 then PoolAfter(s, pool) && pool' == [] && s' == AfterPool(s) && cursor' == 2
            else if cursor + 2 == 512 then pool == [] && PoolAfter(s, pool') && s' == AfterPool(s) && cursor' == 1
            else pool == [] && pool' == [] && s' == s && cursor' == cursor + 2
  {
    hide Pending, PoolAfter, AfterPool;
  }

  /** The state when a constant has a label. */
  ghost function WithImmediate(s: Pools, imm: int): Pools {
    if imm in s.imms then s else s.(imms := s.imms[imm := s.nextImmId], nextImmId := s.nextImmId + 1)
  }

  /** The state when a floating point constant has a number. */
  ghost function WithFloat(s: Pools, index: nat): Pools {
    if index in s.floats then s else s.(floats := s.floats[index := 0])
  }

  lemma EmptyPool(s: Pools, section: seq<Item>)
    requires Defines(section, Pending(s))
    ensures section == [] <==> Pending(s) == {}
  {
    if section != [] {
      assert section[0].lit in Pending(s);
    }
  }

  lemma PoolsApart(s: Pools)
    ensures Apart(Immediates(s), Floats(s)) && Apart(Immediates(s) + Floats(s), Globals(s))
  {
  }

  lemma SameFloats(s: Pools, s': Pools)
    requires s.floats == s'.floats
    ensures Floats(s) == Floats(s')
  {
  }

  lemma SameGlobals(s: Pools, s': Pools)
    requires s.globals == s'.globals
    ensures Globals(s) == Globals(s')
  {
  }

  lemma ConsistentWithout(s: Pools, s': Pools)
    requires Consistent(s) && s'.imms == map[] && s'.globals == s.globals && s'.nrGlobVar == s.nrGlobVar
    ensures Consistent(s')
  {
  }

  // ---- the generator ----

  class Generator {
    var relInstrCursor: nat
    var nextLabelId: nat
    var nextImmId: nat
    var recentUsedImmediates: map<int, nat>
    var usedGlobalVars: map<nat, Name>
    var nrGlobVar: nat
    var floatConstants: seq<int>
    var fpVersions: map<nat, nat>
    var code: seq<Item>

    ghost function State(): Pools
      reads this
    {
      Pools(recentUsedImmediates, usedGlobalVars, fpVersions, nextImmId, nrGlobVar, nextLabelId)
    }

    ghost predicate Valid()
      reads this
    {
      Sound(code, State(), relInstrCursor) && relInstrCursor < INTERVAL && forall k: nat :: k in fpVersions <==> k < |floatConstants|
    }

    constructor ()
      ensures Valid() && code == [] && floatConstants == [] && State() == Pools(map[], map[], map[], 0, 0, 0) && relInstrCursor == 0
    {
      relInstrCursor, nextLabelId, nextImmId, nrGlobVar := 0, 0, 0, 0;
      recentUsedImmediates, usedGlobalVars, fpVersions, floatConstants, code := map[], map[], map[], [], [];
    }

    /** The label of a constant, the same one until the next pool. */
    method RequireImmediate(imm: int) returns (name: Label)
      requires Valid()
      modifies this`recentUsedImmediates, this`nextImmId
      ensures Valid() && Literal(name, Constant(imm)) in Pending(State())
      ensures imm in recentUsedImmediates && name == Imm(recentUsedImmediates[imm])
      ensures imm in old(recentUsedImmediates) ==> State() == old(State()) && name == Imm(old(recentUsedImmediates)[imm])
      ensures imm !in old(recentUsedImmediates) ==> recentUsedImmediates == old(recentUsedImmediates)[imm := old(nextImmId)] && nextImmId == old(nextImmId) + 1
    {
      hide Sound, Pending, Old, Consistent;
      SoundConsistent(code, State(), relInstrCursor);
      if imm !in recentUsedImmediates {
        ghost var s := State();
        MoreImmediates(s, imm);
        recentUsedImmediates := recentUsedImmediates[imm := nextImmId];
        nextImmId := nextImmId + 1;
        SoundMore(code, s, State(), relInstrCursor);
      }
      name := Imm(recentUsedImmediates[imm]);
      ImmediatePending(State(), imm);
    }

    /** The address of a global gets a label when it is asked for the first time, and keeps its number for ever. */
    method AddUsedGlobalVar(v: nat)
      requires Valid()
      modifies this`usedGlobalVars, this`nrGlobVar
      ensures Valid() && v in usedGlobalVars && Global(State(), v) in Pending(State())
      ensures v in old(usedGlobalVars) ==> State() == old(State())
      ensures v !in old(usedGlobalVars) ==> usedGlobalVars == old(usedGlobalVars)[v := Name(old(nrGlobVar), 0)] && nrGlobVar == old(nrGlobVar) + 1
    {
      hide Sound, Pending, Old, Consistent;
      SoundConsistent(code, State(), relInstrCursor);
      if v !in usedGlobalVars {
        ghost var s := State();
        MoreGlobals(s, v);
        usedGlobalVars := usedGlobalVars[v := Name(nrGlobVar, 0)];
        nrGlobVar := nrGlobVar + 1;
        SoundMore(code, s, State(), relInstrCursor);
      }
      GlobalPending(State(), v);
    }

    method GenImmediatePool() returns (pool: seq<Item>)
      requires Consistent(State())
      modifies this`recentUsedImmediates
      ensures Defines(pool, Immediates(old(State()))) && recentUsedImmediates == map[]
    {
      pool := [];
      ghost var s := State();
      var rest: set<int> := recentUsedImmediates.Keys;
      ghost var done: set<Literal> := {};
      while rest != {}
        invariant State() == s && rest <= recentUsedImmediates.Keys && Defines(pool, done)
        invariant done == set i: int | i in s.imms && i !in rest :: Immediate(s, i)
        decreases |rest|
      {
        ghost var some := Inhabited(rest);
        var imm: int :| imm in rest;
        var lit := Literal(Imm(recentUsedImmediates[imm]), Constant(imm));
        DefinesBoth(pool, done, [Def(lit)], {lit});
        pool := pool + [Def(lit)];
        rest := rest - {imm};
        done := done + {lit};
      }
      assert done == Immediates(s);
      recentUsedImmediates := map[];
    }

    method GenIndirectFpConstantAddrs() returns (pool: seq<Item>)
      modifies this`fpVersions
      ensures Defines(pool, Floats(old(State())))
      ensures fpVersions == map f | f in old(fpVersions) :: old(fpVersions)[f] + 1
    {
      pool := [];
      ghost var s := State();
      var rest := fpVersions.Keys;
      ghost var done: set<Literal> := {};
      while rest != {}
        invariant rest <= fpVersions.Keys == s.floats.Keys && Defines(pool, done)
        invariant done == set f | f in s.floats && f !in rest :: Float(s, f)
        invariant forall f :: f in s.floats ==> fpVersions[f] == if f in rest then s.floats[f] else s.floats[f] + 1
        decreases |rest|
      {
        var id :| id in rest;
        var lit := Literal(Fp(id, fpVersions[id]), FloatAddress(id));
        DefinesBoth(pool, done, [Def(lit)], {lit});
        pool := pool + [Def(lit)];
        fpVersions := fpVersions[id := fpVersions[id] + 1];
        rest := rest - {id};
        done := done + {lit};
      }
      assert done == Floats(s);
    }

    method GenUsedGlobVars() returns (pool: seq<Item>)
      requires Consistent(State())
      ensures Defines(pool, Globals(State()))
    {
      pool := [];
      ghost var s := State();
      var rest := usedGlobalVars.Keys;
      ghost var done: set<Literal> := {};
      while rest != {}
        invariant rest <= usedGlobalVars.Keys && Defines(pool, done)
        invariant done == set g | g in s.globals && g !in rest :: Global(s, g)
        decreases |rest|
      {
        var v :| v in rest;
        var lit := Literal(Glob(usedGlobalVars[v].id, usedGlobalVars[v].version), Address(v));
        DefinesBoth(pool, done, [Def(lit)], {lit});
        pool := pool + [Def(lit)];
        rest := rest - {v};
        done := done + {lit};
      }
      assert done == Globals(s);
    }

    method RefreshUsedGlobalVar()
      modifies this`usedGlobalVars
      ensures usedGlobalVars == Refreshed(old(usedGlobalVars))
    {
      usedGlobalVars := map g | g in usedGlobalVars :: Name(usedGlobalVars[g].id, usedGlobalVars[g].version + 1);
    }

    /** One pool: all literals that wait, each label once; afterwards none of these labels is used again. */
    method GenInFuncDataSection() returns (section: seq<Item>)
      requires Consistent(State())
      modifies this`relInstrCursor, this`recentUsedImmediates, this`fpVersions, this`usedGlobalVars
      ensures Defines(section, Pending(old(State()))) && State() == Flushed(old(State())) && relInstrCursor == 0
    {
      hide Defines, Immediates, Floats, Globals, Apart, Consistent;
      ghost var s := State();
      var imms := GenImmediatePool();
      SameFloats(State(), s);
      var floats := GenIndirectFpConstantAddrs();
      ConsistentWithout(s, State());
      SameGlobals(State(), s);
      var globals := GenUsedGlobVars();
      section := imms + floats + globals;
      RefreshUsedGlobalVar();
      relInstrCursor := 0;
      PoolsApart(s);
      DefinesBoth(imms, Immediates(s), floats, Floats(s));
      DefinesBoth(imms + floats, Immediates(s) + Floats(s), globals, Globals(s));
    }

    /** Emit an instruction, and after every 512th one a pool with a jump over it. */
    method Instrln(ref: Option<Literal>) returns (ghost pool: seq<Item>)
      requires Valid() && (ref.Some? ==> ref.value in Pending(State()))
      modifies this`relInstrCursor, this`recentUsedImmediates, this`fpVersions, this`usedGlobalVars, this`nextLabelId, this`code
      ensures Valid() && Emits(old(code), old(State()), old(relInstrCursor), ref, pool, code, State(), relInstrCursor)
    {
      hide Sound, Pending, Old, Consistent, Flushed, Defines;
      SoundInstr(code, State(), relInstrCursor, ref);
      relInstrCursor := relInstrCursor + 1;
      code := code + [Instr(ref)];
      pool := [];
      if relInstrCursor % INTERVAL == 0 {
        ghost var s, t, cursor := State(), code, relInstrCursor;
        SoundConsistent(code, s, cursor);
        var section := GenInFuncDataSection();
        FlushedFloats(s);
        EmptyPool(s, section);
        var skip := Literal(Skip(nextLabelId), Here);
        if section != [] {
          relInstrCursor := relInstrCursor + 1;
          code := code + [Instr(Some(skip))];
          code := code + section;
          code := code + [Def(skip)];
          nextLabelId := nextLabelId + 1;
          SoundFlush(t, s, cursor, [Instr(Some(skip))], section, 1);
          pool := [Instr(Some(skip))] + section + [Def(skip)];
          assert code == t + pool;
        } else {
          SoundFlush(t, s, cursor, [], section, 0);
          assert t + section == t;
        }
      }
    }

    /** `ldr` of a constant from the pool. */
    method LoadImmediate(imm: int) returns (name: Label, ghost pool: seq<Item>)
      requires Valid()
      modifies this`relInstrCursor, this`recentUsedImmediates, this`nextImmId, this`fpVersions, this`usedGlobalVars, this`nextLabelId, this`code
      ensures Valid() && imm in WithImmediate(old(State()), imm).imms && name == Imm(WithImmediate(old(State()), imm).imms[imm])
      ensures Emits(old(code), WithImmediate(old(State()), imm), old(relInstrCursor), Some(Literal(name, Constant(imm))), pool, code, State(), relInstrCursor)
    {
      hide Sound, Pending, Emits;
      name := RequireImmediate(imm);
      assert State() == WithImmediate(old(State()), imm);
      pool := Instrln(Some(Literal(name, Constant(imm))));
    }

    /** `ldr` of the address of a global that has been announced. */
    method LoadGlobalAddress(v: nat) returns (name: Label, ghost pool: seq<Item>)
      requires Valid() && v in usedGlobalVars
      modifies this`relInstrCursor, this`recentUsedImmediates, this`fpVersions, this`usedGlobalVars, this`nextLabelId, this`code
      ensures Valid() && name == Glob(old(usedGlobalVars)[v].id, old(usedGlobalVars)[v].version)
      ensures Emits(old(code), old(State()), old(relInstrCursor), Some(Literal(name, Address(v))), pool, code, State(), relInstrCursor)
    {
      hide Sound, Pending, Emits;
      name := Glob(usedGlobalVars[v].id, usedGlobalVars[v].version);
      GlobalPending(State(), v);
      pool := Instrln(Some(Literal(name, Address(v))));
    }

    /** `ldr` of the address of a floating point constant, which gets a number when it is new, and the load through it. */
    method LoadFloatConstant(imm: int) returns (name: Label, index: nat, ghost pool: seq<Item>, ghost pool': seq<Item>)
      requires Valid()
      modifies this`relInstrCursor, this`recentUsedImmediates, this`fpVersions, this`usedGlobalVars, this`nextLabelId, this`floatConstants, this`code
      ensures Valid() && index < |floatConstants| && floatConstants[index] == imm
      ensures floatConstants == if imm in old(floatConstants) then old(floatConstants) else old(floatConstants) + [imm]
      ensures index in WithFloat(old(State()), index).floats && name == Fp(index, WithFloat(old(State()), index).floats[index])
      ensures code == old(code) + [Instr(Some(Literal(name, FloatAddress(index))))] + pool + [Instr(None)] + pool'
      ensures var s, cursor := WithFloat(old(State()), index), old(relInstrCursor);
              if cursor + 1 == 512 then PoolAfter(s, pool) && pool' == [] && State() == AfterPool(s) && relInstrCursor == 2
              else if cursor + 2 == 512 then pool == [] && PoolAfter(s, pool') && State() == AfterPool(s) && relInstrCursor == 1
              else pool == [] && pool' == [] && State() == s && relInstrCursor == cursor + 2
    {
      hide Sound, Pending, Old, Consistent, Emits, AfterPool, PoolAfter;
      SoundConsistent(code, State(), relInstrCursor);
      index := |floatConstants|;
      for i := 0 to |floatConstants|
        invariant index == |floatConstants| || (index < |floatConstants| && floatConstants[index] == imm)
        invariant index == |floatConstants| <==> imm !in floatConstants[..i]
      {
        if floatConstants[i] == imm {
          index := i;
        }
      }
      if index == |floatConstants| {
        ghost var s := State();
        MoreFloats(s, index);
        floatConstants := floatConstants + [imm];
        fpVersions := fpVersions[index := 0];
        SoundMore(code, s, State(), relInstrCursor);
      }
      FloatPending(State(), index);
      name := Fp(index, fpVersions[index]);
      ghost var s, cursor := State(), relInstrCursor;
      assert s == WithFloat(old(State()), index);
      pool := Instrln(Some(Literal(name, FloatAddress(index))));
      ghost var t1, s1, cursor1 := code, State(), relInstrCursor;
      pool' := Instrln(None);
      EmitsTwice(old(code), s, cursor, Literal(name, FloatAddress(index)), pool, t1, s1, cursor1, pool', code, State(), relInstrCursor);
    }

    /** The pool at the end of a function: now every label that was referred to is defined, once, as what it stands for, and near enough. */
    method EndFunction()
      requires Valid()
      modifies this
      ensures Valid() && DefinedOnce(code)
      ensures old(code) <= code && Defines(code[|old(code)|..], Pending(old(State()))) && State() == Flushed(old(State())) && relInstrCursor == 0
      ensures forall r :: 0 <= r < |code| && code[r].Instr? && code[r].ref.Some? ==> Served(code, r)
    {
      ghost var s, t, cursor := State(), code, relInstrCursor;
      hide Sound, Pending, Old, Consistent, Flushed, Defines, Served;
      SoundConsistent(code, s, cursor);
      var section := GenInFuncDataSection();
      code := code + section;
      SoundFlush(t, s, cursor, [], section, 0);
      FlushedFloats(s);
      SoundConsistent(code, State(), 0);
      EverythingServed(code, State());
    }
  }
}
