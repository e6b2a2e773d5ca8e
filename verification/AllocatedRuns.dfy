/**
 Generating straight-line code: which instructions find registers, and when the code that is
 emitted around them keeps every value.
 */
module AllocatedRuns {
  import opened Options
  import opened RegisterAllocator
  import opened AllocatedCode

  // ---- generating one instruction ----

  /** The live variables once the new ones among `vars` have joined them. */
  function Joined(live: seq<nat>, vars: seq<nat>): (r: seq<nat>)
    ensures |live| <= |r| <= |live| + |vars| && forall v :: v in r <==> v in live || v in vars
  {
    if vars == [] then live
    else
      var n := |vars| - 1;
      var before := Joined(live, vars[..n]);
      if vars[n] in before then before else before + [vars[n]]
  }

  lemma JoinedNext(live: seq<nat>, vars: seq<nat>, i: nat)
    requires i < |vars|
    ensures var before := Joined(live, vars[..i]);
            Joined(live, vars[..i + 1]) == if vars[i] in before then before else before + [vars[i]]
  {
    assert vars[..i + 1][..i] == vars[..i];
  }

  lemma JoinedNone(live: seq<nat>, vars: seq<nat>)
    ensures Joined(live, vars[..0]) == live
  {
  }

  lemma JoinedMembers(live: seq<nat>, vars: seq<nat>, i: nat)
    requires i < |vars|
    ensures forall v :: v in Joined(live, vars[..i]) <==> v in live || v in vars[..i]
    ensures forall j :: 0 <= j < i && vars[j] == vars[i] ==> vars[i] in Joined(live, vars[..i])
  {
    assert forall j :: 0 <= j < i ==> vars[..i][j] == vars[j];
  }

  lemma JoinedGrows(live: seq<nat>, vars: seq<nat>, i: nat)
    requires i <= |vars|
    ensures |Joined(live, vars[..i])| <= |Joined(live, vars)|
    decreases |vars| - i
  {
    hide Joined;
    if i < |vars| {
      JoinedNext(live, vars, i);
      JoinedGrows(live, vars, i + 1);
    } else {
      assert vars[..i] == vars;
    }
  }

  /** Registers that variables and temporaries can have. */
  function Usable(a: Allocator): int {
    12 - if a.maxIntegerArgs > 4 then 1 else 0
  }

  /**
   The code makes room for the variables `news`; nobody but those in `victims` loses its place.
   The stack pointer falls behind by `lost`.
   */
  ghost predicate Begun(s: Places, code: seq<Code>, s': Places, news: set<nat>, victims: set<nat>, lost: nat) {
    && s.reg.Keys + s.spilled - victims <= s'.reg.Keys + s'.spilled <= s.reg.Keys + s.spilled + news
    && s.spilled <= s'.spilled && (s'.spilled != s.spilled ==> HasStore(code))
    && Delta(code) == s.stackSize - s'.stackSize - lost
    && (lost == 0 ==> Carries(s, code, s', news))
  }

  lemma BegunNothing(s: Places, news: set<nat>, victims: set<nat>)
    ensures Begun(s, [], s, news, victims, 0)
  {
    MovesNothing(s);
    MovesCarries(s, [], s, news);
  }

  lemma BegunThen(s: Places, a: seq<Code>, s': Places, b: seq<Code>, s'': Places, v: nat, news: set<nat>, victims: set<nat>, x: nat, y: nat)
    requires Begun(s, a, s', news, victims, x) && Begun(s', b, s'', {v}, victims, y) && v in news
    ensures Begun(s, a + b, s'', news, victims, x + y)
  {
    hide Carries, HasStore;
    DeltaSum(a, b);
    HasBoth(a, b);
    CarriesNews(s', b, s'', {v}, news);
    if x + y == 0 {
      CarriesThen(s, a, s', b, s'', news);
    }
  }

  /** One variable begins to live. */
  method BeginOne(a: Allocator, v: nat, operands: set<nat>, globals: set<nat>) returns (ok: bool, code: seq<Code>, ghost lost: nat)
    requires a.Valid() && v !in a.liveVars && v !in a.allocas && v in operands
    modifies a`liveVars, a`reg, a`spilled, a`temps, a.regAllocatedMap, a.stack
    ensures a.Valid() && a.liveVars == old(a.liveVars) + [v] && a.temps == old(a.temps)
    ensures ok ==> v in a.reg
    ensures !ok ==> v !in a.reg && a.AllTaken() && forall u :: !a.Candidate(u, operands)
    ensures forall u :: u in operands && u in old(a.reg) ==> u in a.reg
    ensures |a.reg.Keys| <= |old(a.reg.Keys)| + 1 && (HasRoom(a.stack.slots) ==> HasRoom(old(a.stack.slots)))
    ensures lost > 0 ==> HasRoom(old(a.stack.slots)) && |old(a.reg.Keys)| + |old(a.temps)| >= Usable(a) - a.AllocBase()
    ensures a.Spares(old(a.regAllocatedMap[..]), a.regAllocatedMap[..])
    ensures Begun(old(a.Where()), code, a.Where(), {v}, globals - operands, lost)
  {
    hide Carries, Allocator.Valid, Allocator.AllTaken, HasStore, HasRoom;
    a.LoadWhenTaken();
    a.KnownLive();
    ok, code := a.Begin(v, operands, globals);
    lost := if HasStore(code) && HasRoom(old(a.stack.slots)) then 8 else 0;
    SubsetSize(a.reg.Keys, old(a.reg.Keys) + {v});
  }

  /**
   Variables begin to live. The stack pointer falls behind only when registers run out while the
   frame has room.
   */
  method BeginAll(a: Allocator, vars: seq<nat>, operands: set<nat>, globals: set<nat>) returns (ok: bool, code: seq<Code>, ghost lost: nat)
    requires a.Valid() && a.temps == {} && forall v :: v in vars ==> v !in a.allocas && v in operands
    modifies a`liveVars, a`reg, a`spilled, a`temps, a.regAllocatedMap, a.stack
    ensures a.Valid() && a.temps == {}
    ensures ok ==> a.liveVars == Joined(old(a.liveVars), vars)
    ensures ok ==> forall v :: v in vars && v !in old(a.liveVars) ==> v in a.reg
    ensures !ok ==> a.AllTaken() && (forall u :: !a.Candidate(u, operands)) && exists v :: v in vars && v !in a.reg
    ensures forall v :: v in a.liveVars ==> v in old(a.liveVars) + vars
    ensures lost > 0 ==> HasRoom(old(a.stack.slots)) && |old(a.reg.Keys)| + |Joined(old(a.liveVars), vars)| - |old(a.liveVars)| > Usable(a) - a.AllocBase()
    ensures a.Spares(old(a.regAllocatedMap[..]), a.regAllocatedMap[..])
    ensures Begun(old(a.Where()), code, a.Where(), Members(vars), globals - operands, lost)
  {
    hide Begun, Allocator.Valid, Joined, Allocator.AllTaken, Allocator.Candidate, HasRoom, Usable, Allocator.AllocBase, Allocator.Where, Allocator.Spares;
    ghost var s, held, live, taken := a.Where(), |a.reg.Keys|, a.liveVars, a.regAllocatedMap[..];
    a.SparesNothing(taken);
    code, lost := [], 0;
    BegunNothing(s, Members(vars), globals - operands);
    JoinedNone(live, vars);
    for i := 0 to |vars|
      invariant a.Valid() && a.temps == {} && a.liveVars == Joined(live, vars[..i])
      invariant |a.reg.Keys| + |live| <= held + |a.liveVars|
      invariant forall j :: 0 <= j < i && vars[j] !in live ==> vars[j] in a.reg
      invariant HasRoom(a.stack.slots) ==> HasRoom(old(a.stack.slots))
      invariant lost > 0 ==> HasRoom(old(a.stack.slots)) && held + |Joined(live, vars)| - |live| > Usable(a) - a.AllocBase()
      invariant a.Spares(taken, a.regAllocatedMap[..])
      invariant Begun(s, code, a.Where(), Members(vars), globals - operands, lost)
    {
      JoinedNext(live, vars, i);
      JoinedMembers(live, vars, i);
      var v := vars[i];
      assert v in vars;
      if v !in a.liveVars {
        JoinedGrows(live, vars, i + 1);
        ghost var s1, taken1 := a.Where(), a.regAllocatedMap[..];
        var more;
        ghost var d;
        ok, more, d := BeginOne(a, v, operands, globals);
        a.SparesThen(taken, taken1, a.regAllocatedMap[..]);
        BegunThen(s, code, s1, more, a.Where(), v, Members(vars), globals - operands, lost, d);
        code, lost := code + more, lost + d;
        if !ok {
          return;
        }
      }
    }
    assert vars[..|vars|] == vars;
    ok := true;
  }

  /** Registers for the instruction's own use. What is in `whitelist` stays where it is. */
  method TakeTemporaries(a: Allocator, whitelist: set<nat>, n: nat) returns (ok: bool, regs: seq<nat>, code: seq<Code>)
    requires a.Valid() && a.temps == {}
    modifies a`reg, a`spilled, a`temps, a.regAllocatedMap, a.stack
    ensures a.Valid() && a.temps == Members(regs) && |a.temps| == |regs| <= n
    ensures ok <==> |regs| == n
    ensures !ok ==> a.AllTaken() && forall u :: !a.Candidate(u, whitelist)
    ensures a.reg.Keys + a.spilled == old(a.reg.Keys + a.spilled)
    ensures forall v :: v in whitelist ==> (v in a.reg <==> v in old(a.reg))
    ensures old(a.spilled) <= a.spilled && (a.spilled != old(a.spilled) ==> HasStore(code))
    ensures a.Spares(old(a.regAllocatedMap[..]), a.regAllocatedMap[..])
    ensures Moves(old(a.Where()), code, a.Where(), 0)
  {
    hide Moves, Allocator.Valid, Allocator.AllTaken, Allocator.Candidate, Allocator.Victimised, HasStore, Allocator.Spares;
    ghost var s, taken := a.Where(), a.regAllocatedMap[..];
    a.SparesNothing(taken);
    regs, code := [], [];
    MovesNothing(s);
    for i := 0 to n
      invariant a.Valid() && |regs| == i && a.temps == Members(regs) && |a.temps| == |regs|
      invariant a.reg.Keys + a.spilled == s.reg.Keys + s.spilled
      invariant forall v :: v in whitelist ==> (v in a.reg <==> v in s.reg)
      invariant s.spilled <= a.spilled && (a.spilled != s.spilled ==> HasStore(code))
      invariant a.Spares(taken, a.regAllocatedMap[..])
      invariant Moves(s, code, a.Where(), 0)
    {
      ghost var s1, before, taken1 := a.Where(), regs, a.regAllocatedMap[..];
      var r, more := a.AllocateGeneralRegister(whitelist);
      a.SparesThen(taken, taken1, a.regAllocatedMap[..]);
      MovesThen(s, code, s1, more, a.Where());
      HasBoth(code, more);
      code := code + more;
      if r.None? {
        return false, regs, code;
      }
      regs := regs + [r.value];
      MembersSum(before, [r.value]);
      assert Members([r.value]) == {r.value};
    }
    ok := true;
  }

  lemma MembersSum(a: seq<nat>, b: seq<nat>)
    ensures Members(a + b) == Members(a) + Members(b)
  {
  }

  method ReleaseTemporaries(a: Allocator, regs: seq<nat>)
    requires a.Valid() && a.temps == Members(regs) && |a.temps| == |regs|
    modifies a`temps, a.regAllocatedMap
    ensures a.Valid() && a.temps == {}
    ensures a.Spares(old(a.regAllocatedMap[..]), a.regAllocatedMap[..])
  {
    hide Allocator.Valid;
    ghost var taken := a.regAllocatedMap[..];
    for i := 0 to |regs|
      invariant a.Valid() && a.temps == Members(regs[i..]) && |a.temps| == |regs| - i
      invariant a.Spares(taken, a.regAllocatedMap[..])
    {
      assert regs[i..] == [regs[i]] + regs[i + 1..];
      MembersSum([regs[i]], regs[i + 1..]);
      assert Members([regs[i]]) == {regs[i]};
      MembersSize(regs[i + 1..]);
      a.ReleaseTemporary(regs[i]);
    }
  }

  lemma {:induction false} MembersSize(vars: seq<nat>)
    ensures |Members(vars)| <= |vars|
  {
    if vars != [] {
      assert vars == [vars[0]] + vars[1..];
      MembersSum([vars[0]], vars[1..]);
      assert Members([vars[0]]) == {vars[0]};
      MembersSize(vars[1..]);
    } else {
      assert Members(vars) == {};
    }
  }

  // ---- one instruction with its allocation ----

  /** Operands are no globals, the result is new, and a store drops one of its globals. */
  ghost predicate Proper(op: Op, globals: set<nat>, live: set<nat>, allocas: set<nat>) {
    && (forall v :: v in op.operands ==> v !in globals && v in live)
    && (forall v :: v in op.globals ==> v in globals && v !in allocas)
    && (op.result.Some? ==> op.result.value !in globals && op.result.value !in allocas && op.result.value !in live)
    && (op.drops.Some? ==> op.drops.value in op.globals)
  }

  /** Registers that the instruction needs at the same time. */
  ghost function Demand(op: Op): nat {
    |Members(Needs(op))| + op.temps
  }

  ghost predicate SomeSpilled(vars: seq<nat>, spilled: set<nat>) {
    exists v :: v in vars && v in spilled
  }

  /** The code puts everything that the instruction needs into registers; the stack pointer falls behind by `lost`. */
  ghost predicate Prepared(s: Places, code: seq<Code>, s': Places, op: Op, globals: set<nat>, lost: nat) {
    && InRegisters(s', op)
    && s.reg.Keys + s.spilled - globals <= s'.reg.Keys + s'.spilled <= s.reg.Keys + s.spilled + Members(Defs(op))
    && (s'.spilled <= s.spilled || HasStore(code))
    && (SomeSpilled(op.operands, s.spilled) ==> HasLoad(code))
    && Delta(code) == s.stackSize - s'.stackSize - lost
    && (lost == 0 ==> Carries(s, code, s', Members(Defs(op))))
  }

  /** All live intervals end. */
  ghost predicate Ending(liveEnd: nat -> nat) {
    forall v :: liveEnd(v) < UINT32_MAX
  }

  /** Registers run out for an instruction only if it needs more than there are. */
  lemma TooMany(a: Allocator, op: Op)
    requires a.Valid() && a.AllTaken() && forall u :: !a.Candidate(u, Members(Needs(op)))
    requires |a.temps| < op.temps || (a.temps == {} && exists v :: v in Needs(op) && v !in a.reg)
    ensures Ending(a.liveEnd) ==> Demand(op) > Usable(a) - a.AllocBase()
  {
    hide Needs, Allocator.AllTaken, Allocator.Valid;
    if Ending(a.liveEnd) {
      a.NoVictimMeansFull(Members(Needs(op)));
      if |a.temps| < op.temps {
        SubsetSize(a.reg.Keys, Members(Needs(op)));
      } else {
        var v :| v in Needs(op) && v !in a.reg;
        SubsetSize(a.reg.Keys + {v}, Members(Needs(op)));
      }
    }
  }

  lemma Enough(a: Allocator, op: Op)
    requires a.Valid() && InRegisters(a.Where(), op) && |a.temps| == op.temps
    ensures Demand(op) <= Usable(a) && |a.reg.Keys| + op.temps <= Usable(a)
  {
    hide Needs;
    a.LoadWhenTaken();
    SubsetSize(Members(Needs(op)), a.reg.Keys);
  }

  lemma SpareTemps(a: Allocator, regs: seq<nat>)
    requires a.Valid() && a.temps == Members(regs)
    ensures Spare(a.Where(), regs)
  {
    forall k, v | 0 <= k < |regs| && v in a.reg
      ensures a.reg[v] != regs[k]
    {
      a.RegisterHeld(v);
    }
  }

  /** What an instruction finds: begin, reload, force. */
  lemma PreparedBy(s: Places, begin: seq<Code>, s1: Places, update: seq<Code>, s2: Places, force: seq<Code>, s3: Places, op: Op, globals: set<nat>, lost: nat)
    requires Begun(s, begin, s1, Members(Defs(op)), globals - Members(Needs(op)), lost) && Distinct(s1) && Distinct(s2)
    requires Carries(s1, update, s2, Members(op.globals)) && s2.reg.Keys + s2.spilled == s1.reg.Keys + s1.spilled + Members(Needs(op)) * Members(op.globals)
    requires (s2.spilled <= s1.spilled || HasStore(update)) && ((exists v :: v in Needs(op) && v in s1.spilled) ==> HasLoad(update))
    requires Moves(s2, force, s3, 0) && s3.reg.Keys + s3.spilled == s2.reg.Keys + s2.spilled && s2.spilled <= s3.spilled && (s3.spilled != s2.spilled ==> HasStore(force))
    requires InRegisters(s3, op)
    ensures Prepared(s, begin + update + force, s3, op, globals, lost)
  {
    hide Carries, Moves, HasStore, HasLoad, Distinct, InRegisters;
    var defs := Members(Defs(op));
    assert forall v :: v in op.globals ==> v in Defs(op);
    CarriesDelta(s1, update, s2, Members(op.globals));
    CarriesNews(s1, update, s2, Members(op.globals), defs);
    MovesCarries(s2, force, s3, defs);
    CarriesDelta(s2, force, s3, defs);
    DeltaSum(begin, update);
    DeltaSum(begin + update, force);
    HasBoth(begin, update);
    HasBoth(begin + update, force);
    if lost == 0 {
      CarriesThen(s, begin, s1, update, s2, defs);
      CarriesThen(s, begin + update, s2, force, s3, defs);
    }
    assert forall v :: v in op.operands ==> v in Needs(op);
  }

  lemma AllInRegisters(s: Places, op: Op)
    requires forall v :: v in Needs(op) ==> v in s.reg
    ensures InRegisters(s, op)
  {
  }

  /** After the allocation is updated, everything that is needed is in registers. */
  lemma UpdatedNeeds(s: Places, begin: seq<Code>, s1: Places, s2: Places, op: Op, globals: set<nat>, lost: nat)
    requires Begun(s, begin, s1, Members(Defs(op)), globals - Members(Needs(op)), lost)
    requires forall v :: v in op.operands ==> v in s.reg.Keys + s.spilled
    requires forall v :: v in Results(op) ==> v in s1.reg
    requires s2.reg.Keys + s2.spilled == s1.reg.Keys + s1.spilled + Members(Needs(op)) * Members(op.globals)
    requires forall v :: v in Needs(op) && v in s2.reg.Keys + s2.spilled ==> v in s2.reg
    ensures forall v :: v in Needs(op) ==> v in s2.reg
  {
    hide Carries, HasStore, Needs, Defs;
    NeedsAre(op);
  }

  /** Variables other than globals are in their places exactly as long as they live. */
  ghost predicate Tracked(s: Places, s': Places, op: Op, globals: set<nat>, liveEnd: nat -> nat, cur: nat) {
    forall v :: v !in globals ==> (v in s'.reg.Keys + s'.spilled <==> v in s.reg.Keys + s.spilled + Members(Defs(op)) && liveEnd(v) > cur)
  }

  lemma TrackedThen(s: Places, prepare: seq<Code>, s1: Places, op: Op, globals: set<nat>, lost: nat, live: seq<nat>, s2: Places, liveEnd: nat -> nat, cur: nat)
    requires Prepared(s, prepare, s1, op, globals, lost) && (op.drops.Some? ==> op.drops.value in globals)
    requires forall v :: v in s.reg.Keys + s.spilled || v in Defs(op) ==> v in live
    requires forall v :: v in Results(op) ==> v in s1.reg
    requires s2.reg.Keys + s2.spilled == s1.reg.Keys + s1.spilled - (Dropped(op.drops) + Expired(live, liveEnd, cur))
    requires forall v :: v in op.globals ==> v in globals
    ensures Tracked(s, s2, op, globals, liveEnd, cur)
  {
    hide Expired, Carries, HasStore, HasLoad, InRegisters;
  }

  lemma PreparedInRegisters(s: Places, prepare: seq<Code>, s1: Places, op: Op, globals: set<nat>, lost: nat)
    requires Prepared(s, prepare, s1, op, globals, lost)
    ensures InRegisters(s1, op) && forall v :: v in Needs(op) ==> v in s1.reg
  {
    hide Carries, Needs;
    forall v | v in Needs(op)
      ensures v in s1.reg
    {
      var k :| 0 <= k < |Needs(op)| && Needs(op)[k] == v;
    }
  }

  function Listing(prepare: seq<Code>, item: Item, release: seq<Code>): seq<Item> {
    Supporting(prepare) + [item] + Supporting(release)
  }

  ghost predicate CompiledOne(s: Places, items: seq<Item>, s': Places, op: Op, lost: nat) {
    Compiled(s, items, s', [op], lost) && (Simulates(s, items, s', [op]) <==> lost == 0)
  }

  /** The items of one instruction, and what they do. */
  lemma Generated(s: Places, prepare: seq<Code>, s1: Places, regs: seq<nat>, release: seq<Code>, s2: Places, op: Op, globals: set<nat>, lost: nat, shift: nat,
                  items: seq<Item>, total: nat)
    requires Distinct(s) && Distinct(s1) && Prepared(s, prepare, s1, op, globals, lost) && Spare(s1, regs) && Forgets(s1, release, s2, shift)
    requires s2.spilled <= s1.spilled && forall v :: v in op.operands ==> v !in Defs(op)
    requires items == Listing(prepare, Operation(s1.reg, op, regs), release) && total == lost + shift
    ensures CompiledOne(s, items, s2, op, total)
    ensures SomeSpilled(op.operands, s.spilled) ==> Loads(items)
  {
    hide Distinct, Spare, Forgets, Carries, HasStore, HasLoad, Stores, Loads, Simulates, Operation, Displacement, Defs, Needs;
    var item := Operation(s1.reg, op, regs);
    ForgetsDelta(s1, release, s2, shift);
    SupportDisplaces(prepare);
    SupportDisplaces(release);
    DisplacementSum(Supporting(prepare), [item]);
    DisplacementSum(Supporting(prepare) + [item], Supporting(release));
    OperationDisplaces(s1.reg, op, regs);
    SupportHas(prepare);
    SumHas(Supporting(prepare), [item]);
    SumHas(Supporting(prepare) + [item], Supporting(release));
    if lost + shift == 0 {
      OneInstruction(s, prepare, s1, regs, release, s2, op);
    }
    CompiledExactly(s, items, s2, [op], total);
  }

  lemma OperationDisplaces(reg: map<nat, nat>, op: Op, regs: seq<nat>)
    requires forall k :: 0 <= k < |Needs(op)| ==> Needs(op)[k] in reg
    ensures Displacement([Operation(reg, op, regs)]) == 0
  {
    assert [Operation(reg, op, regs)][..0] == [];
  }

  lemma NeedsAre(op: Op)
    ensures forall v :: v in Needs(op) <==> v in op.operands || v in Defs(op)
    ensures forall v :: v in Defs(op) <==> v in Results(op) || v in op.globals
  {
  }

  /** Registers for what begins to live, for the operands, and for temporaries. */
  method Prepare(a: Allocator, op: Op, globals: set<nat>) returns (ok: bool, regs: seq<nat>, code: seq<Code>, ghost lost: nat)
    requires a.Valid() && a.temps == {} && Proper(op, globals, Members(a.liveVars), a.allocas)
    requires forall v :: v in op.operands ==> v in a.reg.Keys + a.spilled
    modifies a`liveVars, a`reg, a`spilled, a`temps, a.regAllocatedMap, a.stack
    ensures a.Valid() && a.temps == Members(regs) && |a.temps| == |regs|
    ensures ok ==> a.liveVars == Joined(old(a.liveVars), Defs(op)) && Demand(op) <= Usable(a) && |a.reg.Keys| + op.temps <= Usable(a)
    ensures !ok && Ending(a.liveEnd) ==> Demand(op) > Usable(a) - a.AllocBase()
    ensures !ok ==> a.AllTaken() && forall u :: !a.Candidate(u, Members(Needs(op)))
    ensures lost > 0 ==> HasRoom(old(a.stack.slots)) && |old(a.reg.Keys)| + |Joined(old(a.liveVars), Defs(op))| - |old(a.liveVars)| > Usable(a) - a.AllocBase()
    ensures a.Spares(old(a.regAllocatedMap[..]), a.regAllocatedMap[..])
    ensures ok ==> Prepared(old(a.Where()), code, a.Where(), op, globals, lost)
  {
    hide Allocator.Valid, Joined, Allocator.AllTaken, Allocator.Candidate, HasRoom, Begun, Prepared, Needs, Defs, Carries, Moves, HasStore, HasLoad, Distinct, InRegisters, Allocator.Spares;
    ghost var s, taken := a.Where(), a.regAllocatedMap[..];
    var needs := Members(Needs(op));
    NeedsAre(op);
    var begin, update, force;
    regs, code := [], [];
    ok, begin, lost := BeginAll(a, Defs(op), needs, globals);
    if !ok {
      TooMany(a, op);
      return;
    }
    ghost var s1, taken1 := a.Where(), a.regAllocatedMap[..];
    a.PlacesDistinct();
    ok, update := a.UpdateAllocation(Needs(op), Members(op.globals));
    a.SparesThen(taken, taken1, a.regAllocatedMap[..]);
    if !ok {
      TooMany(a, op);
      return;
    }
    ghost var s2, taken2 := a.Where(), a.regAllocatedMap[..];
    a.PlacesDistinct();
    UpdatedNeeds(s, begin, s1, s2, op, globals, lost);
    ok, regs, force := TakeTemporaries(a, needs, op.temps);
    a.SparesThen(taken, taken2, a.regAllocatedMap[..]);
    if !ok {
      TooMany(a, op);
      return;
    }
    AllInRegisters(a.Where(), op);
    Enough(a, op);
    PreparedBy(s, begin, s1, update, s2, force, a.Where(), op, globals, lost);
    code := begin + update + force;
  }

  /** A store gives the register of its global back. */
  method Drop(a: Allocator, drops: Option<nat>)
    requires a.Valid() && (drops.Some? ==> drops.value in a.reg)
    modifies a`reg, a.regAllocatedMap
    ensures a.Valid() && a.reg == old(a.reg) - Dropped(drops) && a.spilled !! Dropped(drops)
    ensures a.Spares(old(a.regAllocatedMap[..]), a.regAllocatedMap[..])
    ensures Forgets(old(a.Where()), [], a.Where(), 0)
  {
    hide Allocator.Valid, Forgets;
    ForgetsNothing(a.Where());
    if drops.Some? {
      if drops.value in a.spilled {
        a.SpilledElsewhere(drops.value);
      }
      a.ReleaseRegister(drops.value);
    }
  }

  function Dropped(drops: Option<nat>): set<nat> {
    if drops.Some? then {drops.value} else {}
  }

  lemma DropsAdd(reg: map<nat, nat>, spilled: set<nat>, a: set<nat>, b: set<nat>)
    requires spilled !! a
    ensures reg - a - b == reg - (a + b) && spilled - b == spilled - (a + b)
  {
  }

  lemma KeysDrop(reg: map<nat, nat>, reg': map<nat, nat>, spilled: set<nat>, spilled': set<nat>, gone: set<nat>)
    requires reg' == reg - gone && spilled' == spilled - gone
    ensures reg'.Keys + spilled' == reg.Keys + spilled - gone && |reg'.Keys| <= |reg.Keys|
  {
    SubsetSize(reg'.Keys, reg.Keys);
  }

  /** A global is in a register afterwards unless a store has dropped it or its interval is over. */
  lemma GlobalsDrop(reg: map<nat, nat>, reg': map<nat, nat>, op: Op, live: seq<nat>, liveEnd: nat -> nat, cur: nat)
    requires reg' == reg - (Dropped(op.drops) + Expired(live, liveEnd, cur))
    requires forall v :: v in Needs(op) ==> v in reg
    requires forall v :: v in Defs(op) ==> v in live
    ensures forall g :: g in op.globals ==> (g in reg' <==> op.drops != Some(g) && liveEnd(g) > cur)
  {
    hide Needs, Defs, Expired;
    NeedsAre(op);
  }

  /** Temporaries are given back, a store drops the register of its global, and intervals end. */
  method Finish(a: Allocator, regs: seq<nat>, drops: Option<nat>, cur: nat) returns (code: seq<Code>, ghost shift: nat)
    requires a.Valid() && a.temps == Members(regs) && |a.temps| == |regs| && (drops.Some? ==> drops.value in a.reg)
    modifies a`liveVars, a`reg, a`spilled, a`temps, a.regAllocatedMap, a.stack
    ensures a.Valid() && a.temps == {} && a.liveVars == Unexpired(old(a.liveVars), a.liveEnd, cur)
    ensures var gone := Dropped(drops) + Expired(old(a.liveVars), a.liveEnd, cur);
            a.reg == old(a.reg) - gone && a.spilled == old(a.spilled) - gone
    ensures Quiet(Expired(old(a.liveVars), a.liveEnd, cur), a.allocas) ==> shift == 0
    ensures a.Spares(old(a.regAllocatedMap[..]), a.regAllocatedMap[..])
    ensures Forgets(old(a.Where()), code, a.Where(), shift)
  {
    hide Allocator.Valid, Forgets, Expired, Unexpired, Quiet, Members, Dropped, Allocator.Spares;
    ghost var s, vars, taken := a.Where(), a.liveVars, a.regAllocatedMap[..];
    ReleaseTemporaries(a, regs);
    ghost var taken1 := a.regAllocatedMap[..];
    Drop(a, drops);
    ghost var s1, taken2 := a.Where(), a.regAllocatedMap[..];
    code, shift := a.CheckLiveInterval(cur);
    a.SparesThen(taken, taken1, taken2);
    a.SparesThen(taken, taken2, a.regAllocatedMap[..]);
    assert [] + code == code;
    ForgetsThen(s, [], s1, code, a.Where(), 0, shift);
    DropsAdd(s.reg, s.spilled, Dropped(drops), Expired(vars, a.liveEnd, cur));
  }

  /**
   One instruction. It fails only if it needs more registers than there are, and it needs no more than
   there are if it does not fail. The items do what the instruction does if and only if the stack pointer does not fall
   behind. It falls behind only when registers run out while the frame has room, or when the interval of a local array ends.
   */
  method GenInst(a: Allocator, op: Op, globals: set<nat>, cur: nat) returns (ok: bool, items: seq<Item>, ghost lost: nat)
    requires a.Valid() && a.temps == {} && Proper(op, globals, Members(a.liveVars), a.allocas)
    requires forall v :: v in op.operands ==> v in a.reg.Keys + a.spilled
    modifies a`liveVars, a`reg, a`spilled, a`temps, a.regAllocatedMap, a.stack
    ensures a.Valid() && (ok ==> a.temps == {})
    ensures ok ==> Demand(op) <= Usable(a) && |a.reg.Keys| + op.temps <= Usable(a)
    ensures !ok && Ending(a.liveEnd) ==> Demand(op) > Usable(a) - a.AllocBase()
    ensures !ok ==> a.AllTaken() && forall u :: !a.Candidate(u, Members(Needs(op)))
    ensures var live := Joined(old(a.liveVars), Defs(op));
            ok ==> a.liveVars == Unexpired(live, a.liveEnd, cur) && Tracked(old(a.Where()), a.Where(), op, globals, a.liveEnd, cur)
    ensures ok ==> forall g :: g in op.globals ==> (g in a.reg <==> op.drops != Some(g) && a.liveEnd(g) > cur)
    ensures ok ==> a.Spares(old(a.regAllocatedMap[..]), a.regAllocatedMap[..])
    ensures ok ==> CompiledOne(old(a.Where()), items, a.Where(), op, lost)
    ensures ok && lost > 0 ==>
              var live := Joined(old(a.liveVars), Defs(op));
              || (HasRoom(old(a.stack.slots)) && |old(a.reg.Keys)| + |live| - |old(a.liveVars)| > Usable(a) - a.AllocBase())
              || !Quiet(Expired(live, a.liveEnd, cur), a.allocas)
    ensures ok && SomeSpilled(op.operands, old(a.spilled)) ==> Loads(items)
  {
    hide Allocator.Valid, Joined, Allocator.AllTaken, Allocator.Candidate, HasRoom, Prepared, Needs, Defs, Forgets, Distinct, Expired, Unexpired, Quiet, Simulates,
      Stores, Loads, InRegisters, Operation, Tracked, Spare, CompiledOne, Allocator.AllocBase, Usable, Demand, Ending, Members, Listing, SomeSpilled, Dropped, Allocator.Spares;
    ghost var s, live, taken := a.Where(), Joined(a.liveVars, Defs(op)), a.regAllocatedMap[..];
    a.PlacesDistinct();
    a.KnownLive();
    NeedsAre(op);
    var regs, prepare, release;
    items := [];
    ok, regs, prepare, lost := Prepare(a, op, globals);
    if !ok {
      return;
    }
    ghost var s1, taken1 := a.Where(), a.regAllocatedMap[..];
    a.PlacesDistinct();
    SpareTemps(a, regs);
    PreparedInRegisters(s, prepare, s1, op, globals, lost);
    var item := Operation(a.reg, op, regs);
    ghost var shift;
    release, shift := Finish(a, regs, op.drops, cur);
    a.SparesThen(taken, taken1, a.regAllocatedMap[..]);
    GlobalsDrop(s1.reg, a.reg, op, live, a.liveEnd, cur);
    KeysDrop(s1.reg, a.reg, s1.spilled, a.spilled, Dropped(op.drops) + Expired(live, a.liveEnd, cur));
    items := Listing(prepare, item, release);
    ghost var s2, total := a.Where(), lost + shift;
    TrackedThen(s, prepare, s1, op, globals, lost, live, s2, a.liveEnd, cur);
    Generated(s, prepare, s1, regs, release, s2, op, globals, lost, shift, items, total);
    lost := total;
  }

  // ---- straight-line code ----

  /** The results of the first `k` instructions. */
  ghost function Defined(ops: seq<Op>, k: nat): set<nat>
    requires k <= |ops|
  {
    if k == 0 then {} else Defined(ops, k - 1) + Members(Results(ops[k - 1]))
  }

  /** How many variables begin to live at most. */
  ghost function Beginnings(ops: seq<Op>, k: nat): nat
    requires k <= |ops|
  {
    if k == 0 then 0 else Beginnings(ops, k - 1) + |Defs(ops[k - 1])|
  }

  lemma {:induction false} BeginningsGrow(ops: seq<Op>, k: nat, n: nat)
    requires k <= n <= |ops|
    ensures Beginnings(ops, k) <= Beginnings(ops, n)
    ensures k < n ==> Beginnings(ops, k) + |Defs(ops[k])| <= Beginnings(ops, n)
  {
    hide Defs;
    if k < n {
      BeginningsGrow(ops, k, n - 1);
    }
  }

  /** Operands have values and live on; results are new; stores drop globals of theirs. */
  ghost predicate WellLived(ops: seq<Op>, globals: set<nat>, known: set<nat>, live: set<nat>, allocas: set<nat>, liveEnd: nat -> nat, cur: nat) {
    forall k :: 0 <= k < |ops| ==> LivesAt(ops, k, globals, known, live, allocas, liveEnd, cur)
  }

  ghost predicate LivesAt(ops: seq<Op>, k: nat, globals: set<nat>, known: set<nat>, live: set<nat>, allocas: set<nat>, liveEnd: nat -> nat, cur: nat)
    requires k < |ops|
  {
    var op := ops[k];
    && (forall v :: v in op.operands ==> v !in globals && v in known + Defined(ops, k) && liveEnd(v) >= cur + k)
    && (forall v :: v in op.globals ==> v in globals && v !in allocas)
    && (forall v :: v in Results(op) ==> v !in globals + known + Defined(ops, k) + live + allocas)
    && (op.drops.Some? ==> op.drops.value in op.globals)
  }

  /** The places and the live variables are as they should be before instruction `k`. */
  ghost predicate UnderwayAt(s: Places, vars: seq<nat>, globals: set<nat>, allocas: set<nat>, liveEnd: nat -> nat, ops: seq<Op>, k: nat, known: set<nat>,
                             live: set<nat>, cur: nat)
    requires k <= |ops|
  {
    && (forall v :: v !in globals && v in s.reg.Keys + s.spilled ==> v in known + Defined(ops, k))
    && (forall v :: v !in globals && v in known + Defined(ops, k) && liveEnd(v) >= cur + k ==> v in s.reg.Keys + s.spilled)
    && (forall v :: v in vars ==> v in live + Defined(ops, k) + globals && (v in allocas ==> v in live))
  }

  lemma Ready(a: Allocator, op: Op, ops: seq<Op>, k: nat, globals: set<nat>, known: set<nat>, live: set<nat>, cur: nat)
    requires k < |ops| && op == ops[k] && LivesAt(ops, k, globals, known, live, a.allocas, a.liveEnd, cur)
    requires a.Valid() && UnderwayAt(a.Where(), a.liveVars, globals, a.allocas, a.liveEnd, ops, k, known, live, cur)
    ensures Proper(op, globals, Members(a.liveVars), a.allocas) && forall v :: v in op.operands ==> v in a.reg.Keys + a.spilled
  {
    hide Defined, Allocator.Valid;
    a.KnownLive();
    assert op.result.Some? ==> op.result.value in Results(op);
  }

  lemma StaysUnderway(s: Places, vars: seq<nat>, s': Places, globals: set<nat>, allocas: set<nat>, liveEnd: nat -> nat, ops: seq<Op>, k: nat, known: set<nat>,
                      live: set<nat>, cur: nat)
    requires k < |ops| && LivesAt(ops, k, globals, known, live, allocas, liveEnd, cur)
    requires UnderwayAt(s, vars, globals, allocas, liveEnd, ops, k, known, live, cur) && Tracked(s, s', ops[k], globals, liveEnd, cur + k)
    ensures UnderwayAt(s', Unexpired(Joined(vars, Defs(ops[k])), liveEnd, cur + k), globals, allocas, liveEnd, ops, k + 1, known, live, cur)
  {
    hide Joined, Needs, Unexpired, Defs, Results;
    var all := Joined(vars, Defs(ops[k]));
    UnexpiredMembers(all, liveEnd, cur + k);
    assert Defined(ops, k + 1) == Defined(ops, k) + Members(Results(ops[k]));
    NeedsAre(ops[k]);
    hide Defined;
    assert forall v :: v in all ==> v in live + Defined(ops, k + 1) + globals && (v in allocas ==> v in live);
  }

  lemma StaysQuiet(s: Places, vars: seq<nat>, globals: set<nat>, allocas: set<nat>, liveEnd: nat -> nat, ops: seq<Op>, k: nat, known: set<nat>, live: set<nat>, cur: nat)
    requires k < |ops| && LivesAt(ops, k, globals, known, live, allocas, liveEnd, cur)
    requires UnderwayAt(s, vars, globals, allocas, liveEnd, ops, k, known, live, cur)
    ensures var all := Joined(vars, Defs(ops[k]));
            && |Unexpired(all, liveEnd, cur + k)| <= |all|
            && (ArraysStay(live, allocas, liveEnd, cur, |ops|) ==> Quiet(Expired(all, liveEnd, cur + k), allocas))
  {
    hide Joined, Needs, Defined, Expired;
    UnexpiredMembers(Joined(vars, Defs(ops[k])), liveEnd, cur + k);
    NeedsAre(ops[k]);
  }

  lemma {:induction false} UnexpiredMembers(vars: seq<nat>, liveEnd: nat -> nat, cur: nat)
    ensures |Unexpired(vars, liveEnd, cur)| <= |vars| && forall v :: v in Unexpired(vars, liveEnd, cur) ==> v in vars
  {
    if vars != [] {
      UnexpiredMembers(vars[..|vars| - 1], liveEnd, cur);
    }
  }

  /** No interval of an array ends within `n` instructions. */
  ghost predicate ArraysStay(live: set<nat>, allocas: set<nat>, liveEnd: nat -> nat, cur: nat, n: nat) {
    forall v :: v in live && v in allocas ==> liveEnd(v) >= cur + n
  }

  lemma FewRegisters(a: Allocator)
    requires a.Valid()
    ensures |a.reg.Keys| <= |a.liveVars|
  {
    a.KnownLive();
    MembersSize(a.liveVars);
    SubsetSize(a.reg.Keys, Members(a.liveVars));
  }

  /** None of the first `n` instructions needs more registers than there are. */
  ghost predicate Fit(ops: seq<Op>, n: nat, usable: int)
    requires n <= |ops|
  {
    forall k :: 0 <= k < n ==> Demand(ops[k]) <= usable
  }

  lemma FitNext(ops: seq<Op>, n: nat, usable: int)
    requires n < |ops|
    ensures Fit(ops, 0, usable)
    ensures Fit(ops, n + 1, usable) <==> Fit(ops, n, usable) && Demand(ops[n]) <= usable
  {
  }

  lemma FitAll(ops: seq<Op>, n: nat, usable: int)
    requires n < |ops|
    ensures Demand(ops[n]) > usable ==> !Fit(ops, |ops|, usable)
  {
  }

  /** The stack pointer can fall behind in these instructions. */
  ghost predicate Risky(vars: nat, ops: seq<Op>, arraysStay: bool, usable: int) {
    vars + Beginnings(ops, |ops|) > usable || !arraysStay
  }

  /**
   A block of instructions. If registers run out, then for an instruction that needs more than there are. Otherwise every
   instruction of every run sees the operand values that it would see with a register for every variable, and at
   the end all variables that live on are where the allocator says, if and only if the stack pointer does not fall behind.
   */
  method GenInstList(a: Allocator, ops: seq<Op>, globals: set<nat>, cur: nat) returns (ok: bool, done: nat, items: seq<Item>, ghost lost: nat)
    requires a.Valid() && a.temps == {} && WellLived(ops, globals, a.reg.Keys + a.spilled, Members(a.liveVars), a.allocas, a.liveEnd, cur)
    modifies a`liveVars, a`reg, a`spilled, a`temps, a.regAllocatedMap, a.stack
    ensures a.Valid() && done <= |ops| && (ok <==> done == |ops|)
    ensures Fit(ops, done, Usable(a))
    ensures !ok && Ending(a.liveEnd) ==> Demand(ops[done]) > Usable(a) - a.AllocBase()
    ensures a.AllocBase() == 0 && Ending(a.liveEnd) ==> (ok <==> Fit(ops, |ops|, Usable(a)))
    ensures ok ==> a.temps == {} && (Simulates(old(a.Where()), items, a.Where(), ops) <==> lost == 0) && Compiled(old(a.Where()), items, a.Where(), ops, lost)
    ensures ok && lost > 0 ==>
              Risky(|old(a.liveVars)|, ops, ArraysStay(Members(old(a.liveVars)), a.allocas, a.liveEnd, cur, |ops|), Usable(a) - a.AllocBase())
    ensures ok ==> a.Spares(old(a.regAllocatedMap[..]), a.regAllocatedMap[..])
    ensures ok ==> UnderwayAt(a.Where(), a.liveVars, globals, a.allocas, a.liveEnd, ops, |ops|, old(a.reg.Keys + a.spilled), Members(old(a.liveVars)), cur)
  {
    hide Simulates, Expired, Unexpired, LivesAt, UnderwayAt, Defined, Allocator.Valid, Joined, Allocator.AllTaken, Allocator.Candidate, Proper, Tracked, Distinct,
      Stores, HasRoom, Quiet, Usable, Allocator.AllocBase, Compiled, ArraysStay, Needs, Demand, Defs, Beginnings, Fit, Allocator.Spares;
    ghost var s, known, vars, live, taken := a.Where(), a.reg.Keys + a.spilled, a.liveVars, Members(a.liveVars), a.regAllocatedMap[..];
    a.SparesNothing(taken);
    a.PlacesDistinct();
    items, lost, done := [], 0, 0;
    CompiledNothing(s);
    assert ops[..0] == [];
    Starts(a, ops, globals, cur);
    while done < |ops|
      invariant a.Valid() && a.temps == {} && done <= |ops|
      invariant Fit(ops, done, Usable(a)) && a.Spares(taken, a.regAllocatedMap[..])
      invariant UnderwayAt(a.Where(), a.liveVars, globals, a.allocas, a.liveEnd, ops, done, known, live, cur)
      invariant |a.liveVars| <= |vars| + Beginnings(ops, done)
      invariant Compiled(s, items, a.Where(), ops[..done], lost)
      invariant lost > 0 ==> Risky(|vars|, ops, ArraysStay(live, a.allocas, a.liveEnd, cur, |ops|), Usable(a) - a.AllocBase())
    {
      Ready(a, ops[done], ops, done, globals, known, live, cur);
      FewRegisters(a);
      ghost var s1, vars1, taken1 := a.Where(), a.liveVars, a.regAllocatedMap[..];
      var more;
      ghost var d;
      ok, more, d := GenInst(a, ops[done], globals, cur + done);
      if !ok {
        FitAll(ops, done, Usable(a));
        return;
      }
      a.SparesThen(taken, taken1, a.regAllocatedMap[..]);
      StaysUnderway(s1, vars1, a.Where(), globals, a.allocas, a.liveEnd, ops, done, known, live, cur);
      StaysQuiet(s1, vars1, globals, a.allocas, a.liveEnd, ops, done, known, live, cur);
      CompiledThen(s, items, s1, ops, done, lost, more, a.Where(), d);
      BeginningsGrow(ops, done, |ops|);
      BeginningsGrow(ops, done, done + 1);
      FitNext(ops, done, Usable(a));
      items, lost, done := items + more, lost + d, done + 1;
    }
    assert ops[..|ops|] == ops;
    ok := true;
    CompiledExactly(s, items, a.Where(), ops, lost);
  }

  lemma Starts(a: Allocator, ops: seq<Op>, globals: set<nat>, cur: nat)
    ensures UnderwayAt(a.Where(), a.liveVars, globals, a.allocas, a.liveEnd, ops, 0, a.reg.Keys + a.spilled, Members(a.liveVars), cur)
    ensures Beginnings(ops, 0) == 0 && Fit(ops, 0, Usable(a))
  {
  }

  /**
   From a fresh allocator: after any block of code no variable has a register that holds an argument of a call,
   or the one that points to the arguments on the stack.
   */
  method ArgumentsStay(hasFunccall: bool, maxIntegerArgs: nat, liveEnd: nat -> nat, allocas: set<nat>, ops: seq<Op>, globals: set<nat>)
    returns (ok: bool, reg: map<nat, nat>)
    requires WellLived(ops, globals, {}, {}, allocas, liveEnd, 0)
    ensures ok ==> forall v :: v in reg ==> reg[v] < 12 && (hasFunccall ==> reg[v] >= 4 || reg[v] >= maxIntegerArgs) && (maxIntegerArgs > 4 ==> reg[v] != 11)
  {
    hide WellLived, Allocator.Valid, Allocator.AllTaken, Usable, Demand, Simulates, Compiled, UnderwayAt;
    var a := new Allocator(hasFunccall, maxIntegerArgs, liveEnd, allocas);
    assert a.reg.Keys + a.spilled == {} && Members(a.liveVars) == {};
    var done, items;
    ghost var lost;
    ok, done, items, lost := GenInstList(a, ops, globals, 0);
    a.HeldAreTaken();
    reg := a.reg;
  }

  // ---- a run that spills and reloads ----

  function Constant(result: Option<nat>, operands: seq<nat>, temps: nat): Op {
    Op(operands, [], result, temps, None, (args, k) => 0)
  }

  /** `n` instructions with the results 0, 1, and so on. */
  function Filling(n: nat): (ops: seq<Op>)
    ensures |ops| == n && forall k :: 0 <= k < n ==> ops[k] == Constant(Some(k), [], 0)
  {
    seq(n, k requires 0 <= k < n => Constant(Some(k), [], 0))
  }

  lemma FillingDefines(n: nat, k: nat)
    requires k <= n
    ensures Defined(Filling(n), k) == Range(0, k) && Beginnings(Filling(n), k) == k
  {
    if k > 0 {
      FillingDefines(n, k - 1);
      assert Members(Results(Filling(n)[k - 1])) == {k - 1};
    }
  }

  lemma ConstantDemand(result: Option<nat>, operands: seq<nat>, temps: nat)
    ensures Demand(Constant(result, operands, temps)) <= |operands| + 1 + temps
  {
    MembersSize(Needs(Constant(result, operands, temps)));
  }

  function LastUse(v: nat): nat {
    100
  }

  lemma FillingLives()
    ensures WellLived(Filling(12), {}, {}, {}, {}, LastUse, 0)
  {
    forall k | 0 <= k < |Filling(12)|
      ensures LivesAt(Filling(12), k, {}, {}, {}, {}, LastUse, 0)
    {
      FillingDefines(12, k);
      ConstantLives(Filling(12), k, LastUse);
    }
  }

  lemma ConstantLives(ops: seq<Op>, k: nat, liveEnd: nat -> nat)
    requires k < |ops| && ops[k] == Constant(Some(k), [], 0) && Defined(ops, k) == Range(0, k)
    ensures LivesAt(ops, k, {}, {}, {}, {}, liveEnd, 0)
  {
  }

  /** Twelve values, in registers or on the stack. */
  method FillRegisters(a: Allocator) returns (items: seq<Item>)
    requires a.Valid() && a.temps == {} && a.liveVars == [] && a.reg == map[] && a.spilled == {} && a.allocas == {} && a.liveEnd == LastUse
    requires !a.hasFunccall && a.maxIntegerArgs == 0
    modifies a`liveVars, a`reg, a`spilled, a`temps, a.regAllocatedMap, a.stack
    ensures a.Valid() && a.temps == {} && Range(0, 12) <= a.reg.Keys + a.spilled
    ensures Compiled(old(a.Where()), items, a.Where(), Filling(12), 0)
  {
    hide Compiled, LivesAt, Allocator.Valid, Constant, Demand, Defined, Simulates, Range, Beginnings;
    FillingDefines(12, 12);
    FillingLives();
    assert a.reg.Keys + a.spilled == {} && Members(a.liveVars) == {};
    var ok, done;
    ghost var lost;
    ok, done, items, lost := GenInstList(a, Filling(12), {}, 0);
    if !ok {
      ConstantDemand(Some(done), [], 0);
      assert false;
    }
  }

  /** A temporary takes a register: twelve values are not in registers any more. */
  method TakeOne(a: Allocator) returns (items: seq<Item>)
    requires a.Valid() && a.temps == {} && a.allocas == {} && a.liveEnd == LastUse && a.AllocBase() == 0 && Usable(a) == 12
    requires Range(0, 12) <= a.reg.Keys + a.spilled
    modifies a`liveVars, a`reg, a`spilled, a`temps, a.regAllocatedMap, a.stack
    ensures a.Valid() && a.temps == {} && a.spilled != {}
    ensures Compiled(old(a.Where()), items, a.Where(), [Constant(None, [], 1)], 0)
  {
    hide Compiled, Allocator.Valid, Demand, Simulates, Range, Usable, Expired, Unexpired, Needs;
    var op := Constant(None, [], 1);
    ConstantDemand(None, [], 1);
    TooFewRegisters(a);
    assert Defs(op) == [] && Joined(a.liveVars, []) == a.liveVars;
    var ok;
    ghost var lost;
    ok, items, lost := GenInst(a, op, {}, 12);
    forall v | v in Range(0, 12)
      ensures v in a.reg.Keys + a.spilled
    {
      assert a.liveEnd(v) == LastUse(v) == 100;
    }
    if a.spilled == {} {
      SubsetSize(Range(0, 12), a.reg.Keys);
    }
  }

  lemma TooFewRegisters(a: Allocator)
    requires a.Valid() && a.temps == {}
    ensures |a.reg.Keys| <= Usable(a)
  {
    a.LoadWhenTaken();
  }

  /** The value of `v` is needed again. */
  method TakeBack(a: Allocator, v: nat) returns (items: seq<Item>)
    requires a.Valid() && a.temps == {} && a.allocas == {} && a.liveEnd == LastUse && a.AllocBase() == 0 && Usable(a) == 12 && v in a.spilled
    modifies a`liveVars, a`reg, a`spilled, a`temps, a.regAllocatedMap, a.stack
    ensures Compiled(old(a.Where()), items, a.Where(), [Constant(None, [v], 0)], 0) && Loads(items)
  {
    hide Compiled, Allocator.Valid, Demand, Simulates, Usable, Expired, Unexpired, Needs, Loads;
    var op := Constant(None, [v], 0);
    ConstantDemand(None, [v], 0);
    TooFewRegisters(a);
    a.KnownLive();
    assert Defs(op) == [] && Joined(a.liveVars, []) == a.liveVars;
    assert v in op.operands;
    var ok;
    ghost var lost;
    ok, items, lost := GenInst(a, op, {}, 13);
  }

  /**
   From a fresh allocator: twelve values in twelve registers, an instruction that needs a register for
   itself, and one that needs a value which had to go.
   */
  method SpillingRun() returns (ops: seq<Op>, items: seq<Item>, ghost s: Places, ghost s': Places)
    ensures s.reg == map[] && s.spilled == {} && s.stackSize == 0
    ensures Stores(items) && Loads(items) && Simulates(s, items, s', ops)
  {
    hide Compiled, Allocator.Valid, Stores, Loads, Simulates, Constant, Range, Filling;
    var a := new Allocator(false, 0, LastUse, {});
    s := a.Where();
    var first := FillRegisters(a);
    ghost var s1 := a.Where();
    var second := TakeOne(a);
    ghost var s2 := a.Where();
    var v: nat :| v in a.spilled;
    var third := TakeBack(a, v);
    s' := a.Where();
    ops := Filling(12) + [Constant(None, [], 1)] + [Constant(None, [v], 0)];
    CompiledSum(s, first, s1, Filling(12), second, s2, Constant(None, [], 1));
    CompiledSum(s, first + second, s2, Filling(12) + [Constant(None, [], 1)], third, s', Constant(None, [v], 0));
    CompiledStores(s, first + second, s2, Filling(12) + [Constant(None, [], 1)], 0);
    SumHas(first + second, third);
    items := first + second + third;
    CompiledSimulates(s, items, s', ops);
  }

  lemma CompiledSum(s: Places, a: seq<Item>, s': Places, ops: seq<Op>, b: seq<Item>, s'': Places, op: Op)
    requires Compiled(s, a, s', ops, 0) && Compiled(s', b, s'', [op], 0)
    ensures Compiled(s, a + b, s'', ops + [op], 0)
  {
    hide Compiled;
    var all := ops + [op];
    assert all[..|ops|] == ops && all[..|ops| + 1] == all;
    CompiledThen(s, a, s', all, |ops|, 0, b, s'', 0);
  }

  lemma CompiledSimulates(s: Places, items: seq<Item>, s': Places, ops: seq<Op>)
    requires Compiled(s, items, s', ops, 0)
    ensures Simulates(s, items, s', ops)
  {
  }
}
