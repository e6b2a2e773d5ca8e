/** Runs over basic blocks: which instructions are executed, and which blocks can be reached. */
module BlockRuns {
  import opened Options
  import opened BlockViews

  type Code<!B> = map<B, seq<Inst<B>>>

  ghost function CodeOf<B>(v: View<B>): Code<B> {
    map b | b in v :: v[b].insts
  }

  /** The instructions of a block other than its branch. */
  function Body<B>(insts: seq<Inst<B>>): seq<Inst<B>> {
    if insts != [] && (insts[|insts| - 1].Br? || insts[|insts| - 1].CondBr?) then insts[..|insts| - 1] else insts
  }

  /** Where a block goes on; a branch on a computed value between two blocks takes the next choice. */
  function Next<B(==)>(insts: seq<Inst<B>>, choices: seq<bool>): Option<(B, seq<bool>)> {
    if insts == [] then None
    else
      match insts[|insts| - 1]
      case Plain(_) => None
      case Ret(_) => None
      case Br(t) => Some((t, choices))
      case CondBr(c, x, y) =>
        if x == y then Some((x, choices))
        else if c.Imm? then Some((if c.n != 0 then x else y, choices))
        else if choices == [] then None
        else Some((if choices[0] then x else y, choices[1..]))
  }

  /** A branch on a computed value goes where the choice says, and to no other block. */
  lemma NextChoice<B>(insts: seq<Inst<B>>, c: Value, x: B, y: B, choice: bool, choices: seq<bool>)
    requires insts != [] && insts[|insts| - 1] == CondBr(c, x, y)
    ensures c.Id? && x != y ==> Next(insts, [choice] + choices) == Some((if choice then x else y, choices)) && Next(insts, []) == None
    ensures c.Imm? && x != y ==> Next(insts, choices) == Some((if c.n == 0 then y else x, choices))
    ensures x == y ==> Next(insts, choices) == Some((x, choices))
  {
    assert ([choice] + choices)[1..] == choices;
  }

  /** The instructions executed in at most `n` blocks. */
  function Trace<B(==)>(code: Code<B>, b: B, choices: seq<bool>, n: nat): seq<Inst<B>>
    decreases n
  {
    if n == 0 || b !in code then []
    else
      Body(code[b]) +
      match Next(code[b], choices)
      case None => []
      case Some((t, rest)) => Trace(code, t, rest, n - 1)
  }

  function Targets<B(==)>(insts: seq<Inst<B>>): set<B> {
    if insts == [] then {}
    else
      match insts[|insts| - 1]
      case Br(t) => {t}
      case CondBr(_, x, y) => {x, y}
      case _ => {}
  }

  /** The blocks that can be reached in at most `n` steps. */
  ghost function ReachSet<B>(code: Code<B>, entry: B, n: nat): set<B> {
    if n == 0 then {entry}
    else
      var before := ReachSet(code, entry, n - 1);
      before + set b, c | b in before && b in code && c in Targets(code[b]) :: c
  }

  ghost predicate Reachable<B>(code: Code<B>, entry: B, b: B) {
    exists n: nat :: b in ReachSet(code, entry, n)
  }

  lemma EntryReachable<B>(code: Code<B>, entry: B)
    ensures Reachable(code, entry, entry)
  {
    assert entry in ReachSet(code, entry, 0);
  }

  lemma ReachableNext<B>(code: Code<B>, entry: B, b: B)
    requires Reachable(code, entry, b) && b in code
    ensures forall c :: c in Targets(code[b]) ==> Reachable(code, entry, c)
  {
    var n: nat :| b in ReachSet(code, entry, n);
    forall c | c in Targets(code[b])
      ensures Reachable(code, entry, c)
    {
      assert c in ReachSet(code, entry, n + 1);
    }
  }

  ghost predicate StaysIn<B>(code: Code<B>, inside: set<B>, b: B)
    requires b in code
  {
    Targets(code[b]) <= inside
  }

  /** A set that contains the entry and is closed under edges contains whatever can be reached. */
  lemma {:induction false} ClosedContains<B>(code: Code<B>, inside: set<B>, entry: B, n: nat)
    requires entry in inside && forall b :: b in inside && b in code ==> StaysIn(code, inside, b)
    ensures ReachSet(code, entry, n) <= inside
  {
    if n > 0 {
      ClosedContains(code, inside, entry, n - 1);
    }
  }

  // ---- folding constant branches ----

  /** A branch that can only go one way becomes a jump. */
  function Folded<B(==)>(insts: seq<Inst<B>>): seq<Inst<B>> {
    if insts == [] then insts
    else
      var n := |insts| - 1;
      match insts[n]
      case CondBr(c, x, y) =>
        if x == y then insts[..n] + [Br(x)]
        else if c.Imm? then insts[..n] + [Br(if c.n != 0 then x else y)]
        else insts
      case _ => insts
  }

  ghost function FoldAll<B>(code: Code<B>): Code<B> {
    map b | b in code :: Folded(code[b])
  }

  lemma FoldedSame<B>(insts: seq<Inst<B>>, choices: seq<bool>)
    ensures Body(Folded(insts)) == Body(insts) && Next(Folded(insts), choices) == Next(insts, choices)
  {
  }

  /** Folding, and removing what cannot be reached then, changes no run. */
  lemma {:induction false} FoldTrace<B>(code: Code<B>, code': Code<B>, inside: set<B>, b: B, choices: seq<bool>, n: nat)
    requires b in inside && (forall c :: c in inside ==> c in code && c in code')
    requires forall c :: c in inside && c in code && c in code' ==> code'[c] == Folded(code[c]) && StaysIn(code', inside, c)
    ensures Trace(code', b, choices, n) == Trace(code, b, choices, n)
    decreases n
  {
    hide Folded, Body, Next, StaysIn, Trace;
    TraceNothing(code, b, choices, n);
    TraceNothing(code', b, choices, n);
    if n > 0 {
      FoldedSame(code[b], choices);
      NextStays(code', inside, b, choices);
      TraceStep(code, b, choices, n);
      TraceStep(code', b, choices, n);
      var next := Next(code[b], choices);
      if next.Some? {
        FoldTrace(code, code', inside, next.value.0, next.value.1, n - 1);
      }
    }
  }

  lemma TraceNothing<B>(code: Code<B>, b: B, choices: seq<bool>, n: nat)
    ensures n == 0 || b !in code ==> Trace(code, b, choices, n) == []
  {
  }

  lemma TraceStep<B>(code: Code<B>, b: B, choices: seq<bool>, n: nat)
    requires n > 0 && b in code
    ensures var next := Next(code[b], choices);
            Trace(code, b, choices, n) == Body(code[b]) + if next.None? then [] else Trace(code, next.value.0, next.value.1, n - 1)
  {
  }

  lemma NextStays<B>(code: Code<B>, inside: set<B>, b: B, choices: seq<bool>)
    requires b in code && StaysIn(code, inside, b)
    ensures Next(code[b], choices).Some? ==> Next(code[b], choices).value.0 in inside
  {
  }

  // ---- ending a block anew ----

  /** The same code, but runs end in block `s`, once its instructions have been executed. */
  ghost function CutAt<B>(code: Code<B>, s: B): Code<B>
    requires s in code
  {
    code[s := Plains(code[s])]
  }

  lemma BodyPlains<B>(insts: seq<Inst<B>>)
    ensures Plains(Body(insts)) == Plains(insts)
  {
    if insts != [] {
      var m := |insts| - 1;
      assert insts == insts[..m] + [insts[m]];
      PlainsSum(insts[..m], [insts[m]]);
    }
  }

  /** Ending a block anew changes nothing that a run does before it leaves that block. */
  lemma EndedRuns<B>(v: View<B>, s: B, inst: Inst<B>, b: B, choices: seq<bool>, n: nat)
    requires s in v && IsTerminator(inst)
    ensures Trace(CutAt(CodeOf(EndedView(v, s, inst)), s), b, choices, n) == Trace(CutAt(CodeOf(v), s), b, choices, n)
    ensures Plains(Trace(CodeOf(EndedView(v, s, inst)), s, choices, 1)) == Plains(Trace(CodeOf(v), s, choices, 1)) == Plains(v[s].insts)
  {
    EndedKeeps(v, s, inst);
    hide EndedView;
    var w := EndedView(v, s, inst);
    assert CutAt(CodeOf(w), s) == CutAt(CodeOf(v), s);
    OneBlock(CodeOf(w), s, choices);
    OneBlock(CodeOf(v), s, choices);
  }

  lemma OneBlock<B>(code: Code<B>, s: B, choices: seq<bool>)
    requires s in code
    ensures Plains(Trace(code, s, choices, 1)) == Plains(code[s])
  {
    TraceStep(code, s, choices, 1);
    assert Trace(code, s, choices, 1) == Body(code[s]);
    BodyPlains(code[s]);
  }

  // ---- splitting a block ----

  /** Block `p` is cut after instruction `k`; block `q` gets the rest. */
  ghost predicate SplitCode<B>(code: Code<B>, code': Code<B>, p: B, q: B, k: nat) {
    && p in code && k < |code[p]| && code[p][k].Plain? && q !in code
    && (forall b :: b in code ==> b in code')
    && (forall b :: b in code && b != p ==> b in code' && code'[b] == code[b])
    && p in code' && q in code'
    && code'[p] == code[p][..k + 1] + [Br(q)]
    && code'[q] == code[p][k + 1..]
  }

  lemma SplitBlock<B>(code: Code<B>, code': Code<B>, p: B, q: B, k: nat, choices: seq<bool>)
    requires SplitCode(code, code', p, q, k)
    ensures Body(code'[p]) == code[p][..k + 1] && Next(code'[p], choices) == Some((q, choices))
    ensures Body(code[p]) == code[p][..k + 1] + Body(code'[q]) && Next(code'[q], choices) == Next(code[p], choices)
  {
    var rest := code[p][k + 1..];
    if rest != [] {
      assert rest[|rest| - 1] == code[p][|code[p]| - 1];
      assert code[p][..|code[p]| - 1] == code[p][..k + 1] + rest[..|rest| - 1];
    } else {
      assert code[p][|code[p]| - 1] == code[p][k];
      assert code[p] == code[p][..k + 1] + rest;
    }
    assert code[p] == code[p][..k + 1] + rest;
  }

  /** How many blocks the split code visits while the old code visits `n`. */
  ghost function SplitSteps<B>(code: Code<B>, p: B, b: B, choices: seq<bool>, n: nat): (m: nat)
    ensures n <= m
    decreases n
  {
    if n == 0 || b !in code then n
    else
      (if b == p then 2 else 1) +
      match Next(code[b], choices)
      case None => n - 1
      case Some((t, rest)) => SplitSteps(code, p, t, rest, n - 1)
  }

  /** Every run executes the same instructions after splitting. */
  lemma {:induction false} SplitTrace<B>(code: Code<B>, code': Code<B>, p: B, q: B, k: nat, b: B, choices: seq<bool>, n: nat)
    requires SplitCode(code, code', p, q, k) && b != q && code'.Keys == code.Keys + {q}
    requires forall c :: c in code ==> q !in Targets(code[c])
    ensures Trace(code', b, choices, SplitSteps(code, p, b, choices, n)) == Trace(code, b, choices, n)
    decreases n
  {
    hide Trace, Body, Next, SplitSteps, Targets;
    TraceNothing(code, b, choices, n);
    TraceNothing(code', b, choices, n);
    StepsStart(code, p, b, choices, n);
    if n > 0 && b in code {
      NextElsewhere(code, b, q, choices);
      var next, m := Next(code[b], choices), SplitSteps(code, p, b, choices, n);
      if next.Some? {
        SplitTrace(code, code', p, q, k, next.value.0, next.value.1, n - 1);
      }
      if b == p {
        SplitBlock(code, code', p, q, k, choices);
      }
      StepsStep(code, p, b, choices, n);
      TraceStep(code, b, choices, n);
      TraceStep(code', b, choices, m);
      if b == p {
        TraceStep(code', q, choices, m - 1);
        var rest := if next.None? then [] else Trace(code, next.value.0, next.value.1, n - 1);
        assert Body(code'[p]) + (Body(code'[q]) + rest) == Body(code'[p]) + Body(code'[q]) + rest;
      }
    }
  }

  lemma NextElsewhere<B>(code: Code<B>, b: B, q: B, choices: seq<bool>)
    requires b in code && q !in Targets(code[b])
    ensures Next(code[b], choices).Some? ==> Next(code[b], choices).value.0 != q
  {
  }

  lemma StepsStart<B>(code: Code<B>, p: B, b: B, choices: seq<bool>, n: nat)
    ensures n == 0 || b !in code ==> SplitSteps(code, p, b, choices, n) == n
  {
  }

  lemma StepsStep<B>(code: Code<B>, p: B, b: B, choices: seq<bool>, n: nat)
    requires n > 0 && b in code
    ensures var next := Next(code[b], choices);
            SplitSteps(code, p, b, choices, n) ==
            (if b == p then 2 else 1) + if next.None? then n - 1 else SplitSteps(code, p, next.value.0, next.value.1, n - 1)
  {
  }

  lemma {:induction false} TraceGrows<B>(code: Code<B>, b: B, choices: seq<bool>, m: nat, n: nat)
    requires m <= n
    ensures Trace(code, b, choices, m) <= Trace(code, b, choices, n)
    decreases m
  {
    hide Trace, Body, Next;
    TraceNothing(code, b, choices, m);
    TraceNothing(code, b, choices, n);
    if m > 0 && b in code {
      TraceStep(code, b, choices, m);
      TraceStep(code, b, choices, n);
      var next := Next(code[b], choices);
      if next.Some? {
        TraceGrows(code, next.value.0, next.value.1, m - 1, n - 1);
      }
    }
  }

  /** And no run of the split code executes anything else. */
  lemma SplitTraceBack<B>(code: Code<B>, code': Code<B>, p: B, q: B, k: nat, b: B, choices: seq<bool>, m: nat)
    requires SplitCode(code, code', p, q, k) && b != q && code'.Keys == code.Keys + {q}
    requires forall c :: c in code ==> q !in Targets(code[c])
    ensures Trace(code', b, choices, m) <= Trace(code, b, choices, m)
  {
    SplitTrace(code, code', p, q, k, b, choices, m);
    TraceGrows(code', b, choices, m, SplitSteps(code, p, b, choices, m));
  }

  /** Runs from `b` execute the same instructions in both codes, though not in the same number of blocks. */
  ghost predicate SameRuns<B>(code: Code<B>, code': Code<B>, b: B) {
    forall choices: seq<bool>, n: nat :: SameRun(code, code', b, choices, n)
  }

  ghost predicate SameRun<B>(code: Code<B>, code': Code<B>, b: B, choices: seq<bool>, n: nat) {
    && Trace(code', b, choices, n) <= Trace(code, b, choices, n)
    && exists m: nat :: Trace(code', b, choices, m) == Trace(code, b, choices, n)
  }

  lemma SplitRuns<B>(v: View<B>, v': View<B>, p: B, q: B, k: nat, b: B)
    requires Linked(v) && p in v && q !in v && k < |v[p].insts| && v[p].insts[k].Plain? && b in v && forall c :: c in v ==> Matches(v[c])
    requires v'.Keys == v.Keys + {q} && v'[p].insts == v[p].insts[..k + 1] + [Br(q)] && v'[q].insts == v[p].insts[k + 1..]
    requires forall c :: c in v && c != p ==> v'[c].insts == v[c].insts
    ensures SameRuns(CodeOf(v), CodeOf(v'), b)
  {
    var code, code' := CodeOf(v), CodeOf(v');
    forall c | c in code
      ensures q !in Targets(code[c])
    {
      MatchesTargets(v, c);
    }
    assert code'.Keys == code.Keys + {q};
    forall choices: seq<bool>, n: nat
      ensures SameRun(code, code', b, choices, n)
    {
      SplitTrace(code, code', p, q, k, b, choices, n);
      SplitTraceBack(code, code', p, q, k, b, choices, n);
    }
  }
}
