/**
 One pass after the other: what control flow simplification leaves is what the promotion of
 variables relies on.
 */
module Pipeline {
  import opened BasicBlocks
  import BlockRuns
  import opened BlockViews
  import opened ControlFlowSimplification
  import Digraph
  import DominanceFrontier
  import opened MemoryToRegister
  import opened Options
  import PromotedLoads
  import opened ReachingDefinitions

  type Code = BlockRuns.Code<BasicBlock>

  // ---- numbering the blocks ----

  ghost predicate AllDifferent(kept: seq<BasicBlock>) {
    forall i, j :: 0 <= i < j < |kept| ==> kept[i] != kept[j]
  }

  /** The position of a block. */
  function Position(kept: seq<BasicBlock>, b: BasicBlock): (i: nat)
    requires b in kept
    ensures i < |kept| && kept[i] == b
  {
    if kept[0] == b then 0 else 1 + Position(kept[1..], b)
  }

  lemma PositionIs(kept: seq<BasicBlock>, i: nat)
    requires AllDifferent(kept) && i < |kept|
    ensures Position(kept, kept[i]) == i
  {
  }

  /** The code goes on from block `i` to block `j`. */
  ghost predicate GoesOn(kept: seq<BasicBlock>, code: Code, i: nat, j: nat) {
    i < |kept| && j < |kept| && kept[i] in code && kept[j] in BlockRuns.Targets(code[kept[i]])
  }

  /** The edges of the graph are those of the code. */
  ghost predicate Numbered(kept: seq<BasicBlock>, code: Code, g: Digraph.Graph) {
    |g.succs| == |kept| > 0 && forall i: nat, j: nat {:trigger j in g.succs[i]} :: i < |kept| ==> (j in g.succs[i] <==> GoesOn(kept, code, i, j))
  }

  /** Nothing but kept blocks is reached from kept blocks. */
  ghost predicate StaysKept(kept: seq<BasicBlock>, code: Code) {
    forall i :: 0 <= i < |kept| ==> kept[i] in code && forall b :: b in BlockRuns.Targets(code[kept[i]]) ==> b in kept
  }

  /** The positions of those blocks that are in `blocks`. */
  method Positions(kept: seq<BasicBlock>, blocks: set<BasicBlock>) returns (r: seq<nat>)
    ensures forall j: nat :: j in r <==> j < |kept| && kept[j] in blocks
  {
    r := [];
    for j: nat := 0 to |kept|
      invariant forall k: nat :: k in r <==> k < j && kept[k] in blocks
    {
      if kept[j] in blocks {
        r := r + [j];
      }
    }
  }

  function Successor(kept: seq<BasicBlock>, l: Link<BasicBlock>): seq<nat>
    requires l.To? ==> l.block in kept
  {
    if l.To? then [Position(kept, l.block)] else []
  }

  /** Successors from the branch fields, predecessors from the sets of incoming blocks. */
  method Number(kept: seq<BasicBlock>, ghost fn: Function, ghost code: Code) returns (g: Digraph.Graph, preds: seq<seq<nat>>)
    requires kept != [] && AllDifferent(kept) && (forall b :: b in kept ==> b in fn)
    requires Linked(Snapshot(fn)) && AllMatch(Snapshot(fn)) && StaysKept(kept, code) && forall b :: b in kept && b in code ==> b.insts == code[b]
    ensures Numbered(kept, code, g) && |g.succs| == |kept| && DominanceFrontier.PredsOf(g, preds)
  {
    hide Linked, Matches, AllMatch, GoesOn, StaysKept, AllDifferent, Successor, DominanceFrontier.PredsOf;
    var succs: seq<seq<nat>> := [];
    preds := [];
    for i := 0 to |kept|
      invariant |succs| == |preds| == i
      invariant forall k: nat, j: nat {:trigger j in succs[k]} :: k < i ==> (j in succs[k] <==> GoesOn(kept, code, k, j))
      invariant forall k: nat, j: nat {:trigger j in preds[k]} :: k < i ==> (j in preds[k] <==> GoesOn(kept, code, j, k))
    {
      var b := kept[i];
      Fields(kept, fn, code, i);
      var incoming := Positions(kept, b.inBlocks);
      var s := Successor(kept, b.branch) + Successor(kept, b.branchElse);
      succs, preds := succs + [s], preds + [incoming];
    }
    g := Digraph.Graph(succs);
    NumberedBothWays(kept, code, g, preds);
  }

  lemma NumberedBothWays(kept: seq<BasicBlock>, code: Code, g: Digraph.Graph, preds: seq<seq<nat>>)
    requires Numbered(kept, code, g) && |preds| == |kept|
    requires forall k: nat, j: nat {:trigger j in preds[k]} :: k < |kept| ==> (j in preds[k] <==> GoesOn(kept, code, j, k))
    ensures DominanceFrontier.PredsOf(g, preds)
  {
    forall u, w | 0 <= u < |g.succs| && w in g.succs[u]
      ensures w < |g.succs|
    {
      assert GoesOn(kept, code, u, w);
    }
  }

  lemma Fields(kept: seq<BasicBlock>, fn: Function, code: Code, i: nat)
    requires AllDifferent(kept) && i < |kept| && (forall b :: b in kept ==> b in fn)
    requires Linked(Snapshot(fn)) && AllMatch(Snapshot(fn)) && StaysKept(kept, code) && forall b :: b in kept && b in code ==> b.insts == code[b]
    ensures kept[i].branch.To? ==> kept[i].branch.block in kept
    ensures kept[i].branchElse.To? ==> kept[i].branchElse.block in kept
    ensures forall j: nat :: j in Successor(kept, kept[i].branch) + Successor(kept, kept[i].branchElse) <==> GoesOn(kept, code, i, j)
    ensures forall j: nat :: j < |kept| && kept[j] in kept[i].inBlocks <==> GoesOn(kept, code, j, i)
  {
    var v, b := Snapshot(fn), kept[i];
    forall c | c in kept
      ensures c in v && v[c] == c.State() && c in code && v[c].insts == code[c]
      ensures forall d :: HasTarget(v[c], d) <==> d in BlockRuns.Targets(code[c])
    {
      MatchesShape(v[c]);
    }
    hide Matches;
    forall j: nat | j < |kept|
      ensures kept[j] in b.inBlocks <==> GoesOn(kept, code, j, i)
    {
      assert EdgeAgrees(v, kept[j], b);
    }
    assert b.branch.To? ==> HasTarget(v[b], b.branch.block);
    assert b.branchElse.To? ==> HasTarget(v[b], b.branchElse.block);
    forall j: nat
      ensures j in Successor(kept, b.branch) + Successor(kept, b.branchElse) <==> GoesOn(kept, code, i, j)
    {
      if j < |kept| {
        PositionIs(kept, j);
        assert GoesOn(kept, code, i, j) <==> HasTarget(v[b], kept[j]);
      }
    }
  }

  // ---- reachable in the code, reachable in the graph ----

  lemma {:induction false} ReachedByPath(kept: seq<BasicBlock>, code: Code, g: Digraph.Graph, n: nat, b: BasicBlock)
    requires AllDifferent(kept) && Numbered(kept, code, g) && StaysKept(kept, code) && b in BlockRuns.ReachSet(code, kept[0], n)
    ensures b in kept && Digraph.Reachable(g, Position(kept, b))
  {
    hide StaysKept, Position, GoesOn;
    if n == 0 {
      EntryReached(kept, g);
    } else if b in BlockRuns.ReachSet(code, kept[0], n - 1) {
      ReachedByPath(kept, code, g, n - 1, b);
    } else {
      var a :| a in BlockRuns.ReachSet(code, kept[0], n - 1) && a in code && b in BlockRuns.Targets(code[a]);
      ReachedByPath(kept, code, g, n - 1, a);
      ReachedNext(kept, code, g, a, b);
    }
  }

  lemma EntryReached(kept: seq<BasicBlock>, g: Digraph.Graph)
    requires AllDifferent(kept) && |g.succs| == |kept| > 0
    ensures Digraph.Reachable(g, Position(kept, kept[0]))
  {
    PositionIs(kept, 0);
    assert Digraph.PathBetween(g, [0], 0, 0);
  }

  lemma ReachedNext(kept: seq<BasicBlock>, code: Code, g: Digraph.Graph, a: BasicBlock, b: BasicBlock)
    requires Numbered(kept, code, g) && StaysKept(kept, code) && a in code && b in BlockRuns.Targets(code[a])
    requires a in kept && Digraph.Reachable(g, Position(kept, a))
    ensures b in kept && Digraph.Reachable(g, Position(kept, b))
  {
    TargetKept(kept, code, a, b);
    hide StaysKept, Position;
    var i, j := Position(kept, a), Position(kept, b);
    assert GoesOn(kept, code, i, j) && j in g.succs[i];
    var p :| Digraph.PathBetween(g, p, 0, i);
    assert Digraph.PathBetween(g, p + [j], 0, j);
  }

  lemma TargetKept(kept: seq<BasicBlock>, code: Code, a: BasicBlock, b: BasicBlock)
    requires StaysKept(kept, code) && a in kept && a in code && b in BlockRuns.Targets(code[a])
    ensures b in kept
  {
    var i := Position(kept, a);
    assert kept[i] == a;
  }

  /** What the later pass relies on. */
  lemma ReadyForPromotion(kept: seq<BasicBlock>, code: Code, g: Digraph.Graph)
    requires AllDifferent(kept) && Numbered(kept, code, g)
    requires forall b :: b in kept <==> b in code && BlockRuns.Reachable(code, kept[0], b)
    requires forall b :: b in code ==> kept[0] !in BlockRuns.Targets(code[b]) && BlockRuns.Targets(code[b]) <= code.Keys
    ensures StaysKept(kept, code) && Digraph.ValidGraph(g) && Digraph.AllReachable(g) && Digraph.EntryHasNoPred(g)
  {
    ReachableStays(kept, code);
    forall u, w | 0 <= u < |g.succs| && w in g.succs[u]
      ensures w < |g.succs|
    {
      assert GoesOn(kept, code, u, w);
    }
    forall v: nat | v < |g.succs|
      ensures Digraph.Reachable(g, v)
    {
      var n: nat :| kept[v] in BlockRuns.ReachSet(code, kept[0], n);
      ReachedByPath(kept, code, g, n, kept[v]);
      PositionIs(kept, v);
    }
    forall u: nat
      ensures !Digraph.Edge(g, u, 0)
    {
      assert !GoesOn(kept, code, u, 0);
    }
  }

  lemma ReachableStays(kept: seq<BasicBlock>, code: Code)
    requires kept != [] && forall b :: b in kept <==> b in code && BlockRuns.Reachable(code, kept[0], b)
    requires forall b :: b in code ==> BlockRuns.Targets(code[b]) <= code.Keys
    ensures StaysKept(kept, code)
  {
    forall i | 0 <= i < |kept|
      ensures kept[i] in code && forall b :: b in BlockRuns.Targets(code[kept[i]]) ==> b in kept
    {
      BlockRuns.ReachableNext(code, kept[0], kept[i]);
    }
  }

  // ---- runs are paths ----

  /** The blocks that a run visits. */
  ghost function Visits(code: Code, b: BasicBlock, choices: seq<bool>, n: nat): seq<BasicBlock>
    decreases n
  {
    if n == 0 || b !in code then []
    else
      [b] +
      match BlockRuns.Next(code[b], choices)
      case None => []
      case Some((t, rest)) => Visits(code, t, rest, n - 1)
  }

  ghost function PositionsOf(kept: seq<BasicBlock>, blocks: seq<BasicBlock>): (r: seq<nat>)
    requires forall b :: b in blocks ==> b in kept
    ensures |r| == |blocks| && forall k :: 0 <= k < |r| ==> r[k] == Position(kept, blocks[k])
  {
    seq(|blocks|, k requires 0 <= k < |blocks| => Position(kept, blocks[k]))
  }

  /** The blocks of a run, and the path they are on. */
  ghost predicate AlongPath(kept: seq<BasicBlock>, g: Digraph.Graph, run: seq<BasicBlock>) {
    (forall b :: b in run ==> b in kept) && Digraph.IsPath(g, PositionsOf(kept, run))
  }

  lemma AlongOne(kept: seq<BasicBlock>, code: Code, g: Digraph.Graph, b: BasicBlock)
    requires Numbered(kept, code, g) && b in kept
    ensures AlongPath(kept, g, [b])
  {
    assert PositionsOf(kept, [b]) == [Position(kept, b)];
  }

  lemma AlongMore(kept: seq<BasicBlock>, code: Code, g: Digraph.Graph, b: BasicBlock, run: seq<BasicBlock>)
    requires AllDifferent(kept) && Numbered(kept, code, g) && b in kept && b in code
    requires run != [] && AlongPath(kept, g, run) && run[0] in BlockRuns.Targets(code[b])
    ensures AlongPath(kept, g, [b] + run)
  {
    var i, q := Position(kept, b), PositionsOf(kept, run);
    assert GoesOn(kept, code, i, Position(kept, run[0]));
    assert PositionsOf(kept, [b] + run) == [i] + q;
    PrependEdge(g, i, q);
  }

  /** Runs of the code before the simplification visit kept blocks only, along paths of the graph. */
  lemma {:induction false} VisitsArePaths(before: Code, kept: seq<BasicBlock>, g: Digraph.Graph, b: BasicBlock, choices: seq<bool>, n: nat)
    requires AllDifferent(kept) && Numbered(kept, BlockRuns.FoldAll(before), g) && StaysKept(kept, BlockRuns.FoldAll(before)) && b in kept && n > 0
    ensures AlongPath(kept, g, Visits(before, b, choices, n)) && Visits(before, b, choices, n)[0] == b
    decreases n
  {
    hide AlongPath, Numbered, AllDifferent, BlockRuns.Folded, BlockRuns.Targets, BlockRuns.Next;
    var code := BlockRuns.FoldAll(before);
    assert code[kept[Position(kept, b)]] == BlockRuns.Folded(before[b]);
    hide StaysKept;
    BlockRuns.FoldedSame(before[b], choices);
    NextIsTarget(code[b], choices);
    match BlockRuns.Next(before[b], choices)
    case None =>
      AlongOne(kept, code, g, b);
      assert Visits(before, b, choices, n) == [b];
    case Some((t, rest)) =>
      if n == 1 {
        AlongOne(kept, code, g, b);
        assert Visits(before, b, choices, n) == [b];
      } else {
        TargetKept(kept, code, b, t);
        VisitsArePaths(before, kept, g, t, rest, n - 1);
        AlongMore(kept, code, g, b, Visits(before, t, rest, n - 1));
      }
  }

  lemma NextIsTarget(insts: seq<Inst<BasicBlock>>, choices: seq<bool>)
    ensures BlockRuns.Next(insts, choices).Some? ==> BlockRuns.Next(insts, choices).value.0 in BlockRuns.Targets(insts)
  {
  }

  lemma PrependEdge(g: Digraph.Graph, i: nat, q: seq<nat>)
    requires i < |g.succs| && (q == [] || (Digraph.IsPath(g, q) && Digraph.Edge(g, i, q[0])))
    ensures Digraph.IsPath(g, [i] + q)
  {
    var p := [i] + q;
    forall k | 0 <= k < |p| - 1
      ensures Digraph.Edge(g, p[k], p[k + 1])
    {
      if k > 0 {
        assert p[k] == q[k - 1] && p[k + 1] == q[k];
      }
    }
  }

  // ---- both passes ----

  /** What the instructions of a block are to the promoted variables. */
  function Meaning(insts: seq<Inst<BasicBlock>>, meaning: nat -> Instr): (r: seq<Instr>)
    ensures |r| == |insts| && forall k :: 0 <= k < |r| ==> r[k] == if insts[k].Plain? then meaning(insts[k].id) else Other
  {
    seq(|insts|, k requires 0 <= k < |insts| => if insts[k].Plain? then meaning(insts[k].id) else Other)
  }

  ghost predicate NothingPromoted(meaning: nat -> Instr) {
    forall id :: !meaning(id).Phi? && !meaning(id).InitLoad?
  }

  method Meanings(kept: seq<BasicBlock>, meaning: nat -> Instr) returns (code: seq<seq<Instr>>)
    requires NothingPromoted(meaning)
    ensures |code| == |kept| && Unpromoted(code) && forall i :: 0 <= i < |kept| ==> code[i] == Meaning(kept[i].insts, meaning)
  {
    code := [];
    for i := 0 to |kept|
      invariant |code| == i && Unpromoted(code) && forall k :: 0 <= k < i ==> code[k] == Meaning(kept[k].insts, meaning)
    {
      code := code + [Meaning(kept[i].insts, meaning)];
    }
  }

  /**
   Simplify the control flow, then promote. Unless a branch goes back to the first block, the simplified
   function is one that promotion can work on, and the answers of promotion hold along every run of the
   function as it was before.
   */
  method SimplifyThenPromote(blocks: seq<BasicBlock>, meaning: nat -> Instr, n: nat)
    returns (kept: seq<BasicBlock>, ok: bool, g: Digraph.Graph, code0: seq<seq<Instr>>, heads: seq<seq<nat>>, code: seq<seq<Instr>>,
             sources: seq<map<nat, Site>>, phis: seq<map<nat, set<Site>>>)
    requires blocks != [] && AllDifferent(blocks)
    requires Linked(Snapshot(Blocks(blocks))) && AllMatch(Snapshot(Blocks(blocks)))
    requires forall b :: b in blocks ==> Complete(b.insts) && blocks[0] !in BlockRuns.Targets(b.insts)
    requires NothingPromoted(meaning)
    modifies Blocks(blocks)
    ensures ok <==> forall b :: b in blocks ==> !old(ControlFlowSimplification.SameTargets(b.insts))
    ensures kept != [] && kept[0] == blocks[0] && AllDifferent(kept) && Numbered(kept, BlockRuns.FoldAll(old(BlockRuns.CodeOf(Snapshot(Blocks(blocks))))), g)
    ensures |code0| == |kept| == |heads| && code == Promoted(code0, heads, n) && ValidCode(g, code) && |sources| == |phis| == |code|
    ensures forall i :: 0 <= i < |kept| ==> code0[i] == Meaning(kept[i].insts, meaning)
    ensures AllPhisPlaced(g, code, n)
    ensures forall b: nat :: b < |code| ==> LoadsAnswered(g, code, n, b, sources[b]) && PhisFilled(g, code, b, phis[b])
    ensures forall choices, m: nat :: m > 0 ==> RunsAlongPath(old(BlockRuns.CodeOf(Snapshot(Blocks(blocks)))), kept, g, choices, m)
  {
    hide Linked, AllMatch, Complete, Numbered, StaysKept, RunsAlongPath, ControlFlowSimplification.SameTargets, LoadsAnswered, PhisFilled, BlockRuns.FoldAll, BlockRuns.CodeOf, BlockRuns.Reachable,
      BlockRuns.Trace, BlockRuns.Folded, BlockRuns.Targets, Unpromoted, Promoted, Meaning, AllPhisPlaced;
    ghost var fn := Blocks(blocks);
    ghost var before := BlockRuns.CodeOf(Snapshot(fn));
    ghost var folded := BlockRuns.FoldAll(before);
    EntryStaysEntry(fn, blocks, before);
    var refused;
    kept, ok, refused := ControlFlowSimplification.RunOnFunction(blocks);
    ReachableStays(kept, folded);
    var preds;
    g, preds := Number(kept, fn, folded);
    ReadyForPromotion(kept, folded, g);
    code0 := Meanings(kept, meaning);
    ghost var idom;
    heads, code, sources, phis, idom := MemoryToRegister.RunOnFunction(g, preds, code0, n);
    forall choices, m: nat | m > 0
      ensures RunsAlongPath(before, kept, g, choices, m)
    {
      RunAlongPath(before, kept, g, choices, m);
    }
  }

  /** The run visits kept blocks only, along a path from the entry. */
  ghost predicate RunsAlongPath(before: Code, kept: seq<BasicBlock>, g: Digraph.Graph, choices: seq<bool>, m: nat)
    requires kept != []
  {
    var run := Visits(before, kept[0], choices, m);
    AlongPath(kept, g, run) && PositionsOf(kept, run)[0] == 0
  }

  lemma RunAlongPath(before: Code, kept: seq<BasicBlock>, g: Digraph.Graph, choices: seq<bool>, m: nat)
    requires kept != [] && AllDifferent(kept) && Numbered(kept, BlockRuns.FoldAll(before), g) && StaysKept(kept, BlockRuns.FoldAll(before)) && m > 0
    ensures RunsAlongPath(before, kept, g, choices, m)
  {
    VisitsArePaths(before, kept, g, kept[0], choices, m);
    PositionIs(kept, 0);
  }

  lemma EntryStaysEntry(fn: Function, blocks: seq<BasicBlock>, code: Code)
    requires blocks != [] && (forall b :: b in fn <==> b in blocks) && Linked(Snapshot(fn)) && AllMatch(Snapshot(fn)) && code == BlockRuns.CodeOf(Snapshot(fn))
    requires forall b :: b in blocks ==> blocks[0] !in BlockRuns.Targets(b.insts)
    ensures var folded := BlockRuns.FoldAll(code);
            folded.Keys == fn && (forall b :: b in folded ==> folded[b] == BlockRuns.Folded(b.insts))
            && forall b :: b in folded ==> blocks[0] !in BlockRuns.Targets(folded[b]) && BlockRuns.Targets(folded[b]) <= folded.Keys
  {
    var v, folded := Snapshot(fn), BlockRuns.FoldAll(code);
    forall b | b in folded
      ensures folded[b] == BlockRuns.Folded(b.insts) && blocks[0] !in BlockRuns.Targets(folded[b]) && BlockRuns.Targets(folded[b]) <= folded.Keys
    {
      FoldedTargets(code[b]);
      MatchesShape(v[b]);
      assert v[b] == b.State() && TargetsIn(v[b], v.Keys);
    }
  }
}
