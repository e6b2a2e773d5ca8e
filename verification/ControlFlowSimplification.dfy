/** Fold branches that can only go one way, and delete the blocks that cannot be reached then. */
module ControlFlowSimplification {
  import opened Options
  import opened BasicBlocks
  import opened BlockRuns
  import opened BlockViews

  /** The code after the blocks in `done` have been folded. */
  ghost function PartlyFolded(code: Code<BasicBlock>, done: set<BasicBlock>): Code<BasicBlock> {
    map b | b in code :: if b in done then Folded(code[b]) else code[b]
  }

  /** Both ways of the branch lead to one block. */
  ghost predicate SameTargets(insts: seq<Inst<BasicBlock>>) {
    insts != [] && insts[|insts| - 1].CondBr? && insts[|insts| - 1].onTrue == insts[|insts| - 1].onFalse
  }

  ghost predicate Complete(insts: seq<Inst<BasicBlock>>) {
    insts != [] && IsTerminator(insts[|insts| - 1])
  }

  ghost predicate AllMatch(v: View<BasicBlock>) {
    forall b :: b in v ==> Matches(v[b])
  }

  lemma MatchesShape(n: Node<BasicBlock>)
    requires Matches(n)
    ensures EqualTargets(n) <==> SameTargets(n.insts)
    ensures Complete(n.insts) <==> !IsIncomplete(n)
    ensures IsBranched(n) <==> n.insts != [] && n.insts[|n.insts| - 1].CondBr?
    ensures IsBranched(n) ==> n.control.Some? && n.branch.To? && n.branchElse.To? && Targets(n.insts) == {n.branch.block, n.branchElse.block}
    ensures IsLinear(n) && !IsTerminal(n) ==> n.branch.To? && Targets(n.insts) == {n.branch.block}
    ensures IsTerminal(n) || IsIncomplete(n) ==> Targets(n.insts) == {}
    ensures forall b :: HasTarget(n, b) <==> b in Targets(n.insts)
  {
  }

  /** What a new terminator does to a block. */
  lemma EndStep(v: View<BasicBlock>, b: BasicBlock, inst: Inst<BasicBlock>)
    requires Linked(v) && AllMatch(v) && b in v && IsTerminator(inst) && TargetsKnown(inst, v.Keys)
    ensures var w := EndedView(v, b, inst);
            && Linked(w) && AllMatch(w) && w.Keys == v.Keys
            && forall c :: c in v ==> w[c].insts == if c == b then Stripped(v[b]) + [inst] else v[c].insts
  {
    EndedLinked(v, b, inst);
    forall c | c in v
      ensures Matches(EndedView(v, b, inst)[c])
      ensures EndedView(v, b, inst)[c].insts == if c == b then Stripped(v[b]) + [inst] else v[c].insts
    {
      MatchesStrips(v[b]);
      EndedMatches(v, b, inst, c);
    }
  }

  /** What folding does to a block. */
  lemma FoldStep(v: View<BasicBlock>, b: BasicBlock, target: BasicBlock)
    requires Linked(v) && AllMatch(v) && b in v && target in v && IsBranched(v[b])
    requires Folded(v[b].insts) == v[b].insts[..|v[b].insts| - 1] + [Br(target)]
    ensures var w := EndedView(v, b, Br(target));
            && Linked(w) && AllMatch(w) && w.Keys == v.Keys
            && forall c :: c in v ==> w[c].insts == if c == b then Folded(v[b].insts) else v[c].insts
  {
    EndStep(v, b, Br(target));
  }

  lemma ResetStep(v: View<BasicBlock>, b: BasicBlock)
    requires Linked(v) && AllMatch(v) && b in v
    ensures var w := ResetView(v, b);
            && Linked(w) && AllMatch(w) && w.Keys == v.Keys && IsIncomplete(w[b])
            && (forall c :: c in v && c != b ==> w[c].insts == v[c].insts)
  {
    ResetLinked(v, b);
    forall c | c in v
      ensures Matches(ResetView(v, b)[c])
      ensures c != b ==> ResetView(v, b)[c].insts == v[c].insts
    {
      ResetMatches(v, b, c);
    }
    ResetMatches(v, b, b);
  }

  // ---- the invariant of the search ----

  /** Everything known about visited and pending blocks, in terms of the folded code. */
  ghost predicate Searched(code: Code<BasicBlock>, entry: BasicBlock, visited: set<BasicBlock>, stack: seq<BasicBlock>) {
    var folded := FoldAll(code);
    && (forall b :: b in visited ==> b in code && Reachable(folded, entry, b))
    && (forall k :: 0 <= k < |stack| ==> stack[k] in code && Reachable(folded, entry, stack[k]))
    && (entry in visited || entry in stack)
    && (forall b :: b in visited && b in code ==> TargetsSeen(code, visited, stack, b))
  }

  ghost predicate TargetsSeen(code: Code<BasicBlock>, visited: set<BasicBlock>, stack: seq<BasicBlock>, b: BasicBlock)
    requires b in code
  {
    forall c :: c in Targets(Folded(code[b])) ==> c in visited || c in stack
  }

  ghost predicate TargetsExist(code: Code<BasicBlock>) {
    forall b :: b in code ==> Targets(code[b]) <= code.Keys
  }

  lemma FoldedTargets(insts: seq<Inst<BasicBlock>>)
    ensures Targets(Folded(insts)) <= Targets(insts)
  {
  }

  lemma SearchStarts(code: Code<BasicBlock>, entry: BasicBlock)
    requires entry in code
    ensures Searched(code, entry, {}, [entry])
  {
    EntryReachable(FoldAll(code), entry);
  }

  /** The block on top has been visited before. */
  lemma SearchSkips(code: Code<BasicBlock>, entry: BasicBlock, visited: set<BasicBlock>, stack: seq<BasicBlock>)
    requires Searched(code, entry, visited, stack) && stack != [] && stack[|stack| - 1] in visited
    ensures Searched(code, entry, visited, stack[..|stack| - 1])
  {
    var rest := stack[..|stack| - 1];
    assert stack == rest + [stack[|stack| - 1]];
    forall b | b in visited && b in code
      ensures TargetsSeen(code, visited, rest, b)
    {
      assert TargetsSeen(code, visited, stack, b);
    }
  }

  /** The block on top is visited, and its targets are pushed. */
  lemma SearchVisits(code: Code<BasicBlock>, entry: BasicBlock, visited: set<BasicBlock>, stack: seq<BasicBlock>, more: seq<BasicBlock>)
    requires Searched(code, entry, visited, stack) && stack != [] && TargetsExist(code)
    requires var b := stack[|stack| - 1]; b in code && forall c :: c in more <==> c in Targets(Folded(code[b]))
    ensures Searched(code, entry, visited + {stack[|stack| - 1]}, stack[..|stack| - 1] + more)
  {
    hide Reachable, Folded, Targets, FoldAll;
    var b, rest := stack[|stack| - 1], stack[..|stack| - 1];
    var visited', stack' := visited + {b}, rest + more;
    assert stack == rest + [b];
    PushedReachable(code, entry, visited, stack, more);
    assert forall d :: d in stack ==> d in rest || d == b;
    assert forall d :: d in rest || d in more ==> d in stack';
    forall c | c in visited' && c in code
      ensures TargetsSeen(code, visited', stack', c)
    {
      if c != b {
        assert TargetsSeen(code, visited, stack, c);
        StillSeen(code, visited, stack, visited', stack', c);
      } else {
        PushedSeen(code, visited', rest, more, b);
      }
    }
  }

  lemma PushedSeen(code: Code<BasicBlock>, visited: set<BasicBlock>, rest: seq<BasicBlock>, more: seq<BasicBlock>, b: BasicBlock)
    requires b in code && forall c :: c in more <==> c in Targets(Folded(code[b]))
    ensures TargetsSeen(code, visited, rest + more, b)
  {
    forall c | c in Targets(Folded(code[b]))
      ensures c in rest + more
    {
      assert c in more;
    }
  }

  lemma StillSeen(code: Code<BasicBlock>, visited: set<BasicBlock>, stack: seq<BasicBlock>, visited': set<BasicBlock>, stack': seq<BasicBlock>, c: BasicBlock)
    requires c in code && TargetsSeen(code, visited, stack, c)
    requires forall d :: d in visited || d in stack ==> d in visited' || d in stack'
    ensures TargetsSeen(code, visited', stack', c)
  {
  }

  lemma PushedReachable(code: Code<BasicBlock>, entry: BasicBlock, visited: set<BasicBlock>, stack: seq<BasicBlock>, more: seq<BasicBlock>)
    requires Searched(code, entry, visited, stack) && stack != [] && TargetsExist(code)
    requires var b := stack[|stack| - 1]; b in code && forall c :: c in more <==> c in Targets(Folded(code[b]))
    ensures var stack' := stack[..|stack| - 1] + more;
            forall k :: 0 <= k < |stack'| ==> stack'[k] in code && Reachable(FoldAll(code), entry, stack'[k])
  {
    hide Reachable, Folded, Targets;
    var b, rest := stack[|stack| - 1], stack[..|stack| - 1];
    var stack' := rest + more;
    FoldedTargets(code[b]);
    ReachableNext(FoldAll(code), entry, b);
    forall k | 0 <= k < |stack'|
      ensures stack'[k] in code && Reachable(FoldAll(code), entry, stack'[k])
    {
      if k < |rest| {
        assert stack'[k] == stack[k];
      } else {
        assert stack'[k] == more[k - |rest|];
        assert more[k - |rest|] in more;
      }
    }
  }

  /** When nothing is pending, exactly the reachable blocks have been visited. */
  lemma SearchEnds(code: Code<BasicBlock>, entry: BasicBlock, visited: set<BasicBlock>)
    requires Searched(code, entry, visited, [])
    ensures forall b :: b in visited <==> Reachable(FoldAll(code), entry, b)
    ensures forall b :: b in visited ==> b in code && StaysIn(FoldAll(code), visited, b)
  {
    var folded := FoldAll(code);
    forall b | b in visited
      ensures b in code && StaysIn(folded, visited, b)
    {
      assert TargetsSeen(code, visited, [], b);
    }
    forall b | Reachable(folded, entry, b)
      ensures b in visited
    {
      var n: nat :| b in ReachSet(folded, entry, n);
      ClosedContains(folded, visited, entry, n);
    }
  }

  // ---- the pass ----

  /** Turn a branch that can only go one way into a jump. It is asserted that the targets of the branch differ. */
  method FoldBranch(ghost fn: Function, block: BasicBlock) returns (ok: bool)
    requires block in fn && Linked(Snapshot(fn)) && AllMatch(Snapshot(fn))
    modifies fn
    ensures Linked(Snapshot(fn)) && AllMatch(Snapshot(fn))
    ensures CodeOf(Snapshot(fn)) == old(CodeOf(Snapshot(fn))[block := Folded(block.insts)])
    ensures ok <==> !SameTargets(old(block.insts))
  {
    ghost var v := Snapshot(fn);
    assert Snapshot(fn)[block] == block.State();
    MatchesShape(block.State());
    ok := true;
    if IsBranched(block.State()) {
      var target := block.branch;
      if block.branch == block.branchElse {
        ok := JumpTo(fn, block, block.branch.block);
      } else if block.control.value.Imm? {
        ok := JumpTo(fn, block, if block.control.value.n != 0 then block.branch.block else block.branchElse.block);
      }
    }
  }

  method JumpTo(ghost fn: Function, block: BasicBlock, target: BasicBlock) returns (ok: bool)
    requires block in fn && target in fn && Linked(Snapshot(fn)) && AllMatch(Snapshot(fn)) && IsBranched(block.State())
    requires block.insts != [] && Folded(block.insts) == block.insts[..|block.insts| - 1] + [Br(target)]
    modifies fn
    ensures Linked(Snapshot(fn)) && AllMatch(Snapshot(fn))
    ensures CodeOf(Snapshot(fn)) == old(CodeOf(Snapshot(fn))[block := Folded(block.insts)])
    ensures ok <==> !old(EqualTargets(block.State()))
  {
    hide Linked, Matches, EndedView, Folded, EqualTargets;
    ghost var v := Snapshot(fn);
    FoldStep(v, block, target);
    ok := block.ResetTo(fn, target);
    assert CodeOf(Snapshot(fn)) == CodeOf(v)[block := Folded(v[block].insts)];
  }

  lemma FoldedGrows(code: Code<BasicBlock>, visited: set<BasicBlock>, b: BasicBlock)
    requires b in code && b !in visited
    ensures PartlyFolded(code, visited)[b := Folded(PartlyFolded(code, visited)[b])] == PartlyFolded(code, visited + {b})
  {
  }

  ghost predicate DistinctIn(code: Code<BasicBlock>, blocks: set<BasicBlock>) {
    forall b :: b in blocks && b in code ==> !SameTargets(code[b])
  }

  lemma TargetsFromView(v: View<BasicBlock>)
    requires Linked(v) && AllMatch(v)
    ensures TargetsExist(CodeOf(v))
  {
    forall b | b in v
      ensures Targets(v[b].insts) <= v.Keys
    {
      MatchesTargets(v, b);
    }
  }

  /** The targets of a block, in the order in which the search pushes them. */
  method Successors(block: BasicBlock) returns (more: seq<BasicBlock>)
    requires Matches(block.State()) && Complete(block.insts)
    ensures forall c :: c in more <==> c in Targets(block.insts)
  {
    MatchesShape(block.State());
    if IsBranched(block.State()) {
      more := [block.branch.block, block.branchElse.block];
    } else if !IsTerminal(block.State()) {
      more := [block.branch.block];
    } else {
      more := [];
    }
  }

  lemma FoldedComplete(insts: seq<Inst<BasicBlock>>)
    requires Complete(insts)
    ensures Complete(Folded(insts))
  {
  }

  /** Depth-first search from the entry; every block is folded when it is met. */
  method Search(ghost fn: Function, entry: BasicBlock) returns (visited: set<BasicBlock>, ok: bool)
    requires entry in fn && Linked(Snapshot(fn)) && AllMatch(Snapshot(fn))
    requires forall b :: b in fn && Reachable(FoldAll(CodeOf(Snapshot(fn))), entry, b) ==> Complete(b.insts)
    modifies fn
    ensures Linked(Snapshot(fn)) && AllMatch(Snapshot(fn)) && visited <= fn
    ensures CodeOf(Snapshot(fn)) == PartlyFolded(old(CodeOf(Snapshot(fn))), visited)
    ensures Searched(old(CodeOf(Snapshot(fn))), entry, visited, [])
    ensures ok <==> DistinctIn(old(CodeOf(Snapshot(fn))), visited)
  {
    hide Linked, AllMatch, FoldAll, Reachable, Searched, Folded, Targets, SameTargets, TargetsExist;
    ghost var code := CodeOf(Snapshot(fn));
    TargetsFromView(Snapshot(fn));
    SearchStarts(code, entry);
    var stack := [entry];
    visited, ok := {}, true;
    assert CodeOf(Snapshot(fn)) == PartlyFolded(code, {});
    while stack != []
      invariant Linked(Snapshot(fn)) && AllMatch(Snapshot(fn)) && visited <= fn
      invariant CodeOf(Snapshot(fn)) == PartlyFolded(code, visited)
      invariant Searched(code, entry, visited, stack)
      invariant ok <==> DistinctIn(code, visited)
      decreases fn - visited, |stack|
    {
      var block := stack[|stack| - 1];
      if block in visited {
        SearchSkips(code, entry, visited, stack);
        stack := stack[..|stack| - 1];
      } else {
        TopIsReachable(code, entry, visited, stack);
        FoldedGrows(code, visited, block);
        var distinct := FoldBranch(fn, block);
        ok := ok && distinct;
        FoldedComplete(code[block]);
        NowFolded(fn, code, visited, block);
        var more := Successors(block);
        SearchVisits(code, entry, visited, stack, more);
        visited := visited + {block};
        stack := stack[..|stack| - 1] + more;
      }
    }
  }

  lemma TopIsReachable(code: Code<BasicBlock>, entry: BasicBlock, visited: set<BasicBlock>, stack: seq<BasicBlock>)
    requires Searched(code, entry, visited, stack) && stack != []
    ensures stack[|stack| - 1] in code && Reachable(FoldAll(code), entry, stack[|stack| - 1])
  {
  }

  lemma NowFolded(fn: Function, code: Code<BasicBlock>, visited: set<BasicBlock>, block: BasicBlock)
    requires block in fn && AllMatch(Snapshot(fn)) && block in code && CodeOf(Snapshot(fn)) == PartlyFolded(code, visited + {block})
    ensures block.insts == Folded(code[block]) && Matches(block.State())
  {
    assert Snapshot(fn)[block] == block.State();
    assert CodeOf(Snapshot(fn))[block] == block.insts;
  }

  // ---- deleting ----

  /** What is left of the list of blocks. */
  function Keep(blocks: seq<BasicBlock>, visited: set<BasicBlock>): seq<BasicBlock> {
    if blocks == [] then []
    else
      var n := |blocks| - 1;
      Keep(blocks[..n], visited) + (if blocks[n] in visited then [blocks[n]] else [])
  }

  /** Kept blocks have the code they had when the search ended, and the first `k` of the others have no edges. */
  ghost predicate Cleared(v: View<BasicBlock>, code: Code<BasicBlock>, visited: set<BasicBlock>, blocks: seq<BasicBlock>, k: nat) {
    && Linked(v) && AllMatch(v) && k <= |blocks| && v.Keys == code.Keys
    && (forall b :: b in visited && b in v ==> v[b].insts == code[b])
    && (forall j :: 0 <= j < k && blocks[j] !in visited && blocks[j] in v ==> IsIncomplete(v[blocks[j]]))
    && (forall j :: k <= j < |blocks| && blocks[j] in v ==> v[blocks[j]].insts == code[blocks[j]])
  }

  lemma ClearStep(v: View<BasicBlock>, code: Code<BasicBlock>, visited: set<BasicBlock>, blocks: seq<BasicBlock>, k: nat)
    requires Cleared(v, code, visited, blocks, k) && k < |blocks| && blocks[k] in v && (forall i, j :: 0 <= i < j < |blocks| ==> blocks[i] != blocks[j])
    ensures Cleared(if blocks[k] in visited then v else ResetView(v, blocks[k]), code, visited, blocks, k + 1)
    ensures EqualTargets(v[blocks[k]]) <==> SameTargets(code[blocks[k]])
  {
    hide Linked, Matches, ResetView;
    MatchesShape(v[blocks[k]]);
    if blocks[k] !in visited {
      ResetStep(v, blocks[k]);
      ResetOthers(v, blocks[k]);
    }
  }

  lemma ResetOthers(v: View<BasicBlock>, s: BasicBlock)
    requires s in v
    ensures forall b :: b in v && b != s ==> b in ResetView(v, s) && (IsIncomplete(v[b]) <==> IsIncomplete(ResetView(v, s)[b]))
  {
  }

  /** A block that has not been visited has no incoming edges any more. */
  lemma NothingIncoming(v: View<BasicBlock>, code: Code<BasicBlock>, visited: set<BasicBlock>, blocks: seq<BasicBlock>, b: BasicBlock)
    requires Cleared(v, code, visited, blocks, |blocks|) && b in v && b !in visited
    requires (forall p :: p in v ==> p in blocks) && (forall p :: p in visited ==> p in code && StaysIn(code, visited, p))
    ensures v[b].inBlocks == {}
  {
    assert TargetsIn(v[b], v.Keys);
    forall p | p in v
      ensures p !in v[b].inBlocks
    {
      MatchesShape(v[p]);
      assert b !in Targets(v[p].insts) by {
        assert p in visited ==> StaysIn(code, visited, p);
      }
      assert EdgeAgrees(v, p, b);
    }
  }

  /** Drop the edges of all blocks that were not visited. */
  method ClearUnvisited(ghost fn: Function, blocks: seq<BasicBlock>, visited: set<BasicBlock>, ghost code: Code<BasicBlock>) returns (ok: bool)
    requires (forall b :: b in fn <==> b in blocks) && (forall i, j :: 0 <= i < j < |blocks| ==> blocks[i] != blocks[j])
    requires Cleared(Snapshot(fn), code, visited, blocks, 0)
    modifies fn
    ensures Cleared(Snapshot(fn), code, visited, blocks, |blocks|)
    ensures ok <==> forall b :: b in fn && b in code && b !in visited ==> !SameTargets(code[b])
  {
    hide Linked, Matches, EqualTargets, SameTargets, ResetView;
    ok := true;
    for k := 0 to |blocks|
      invariant Cleared(Snapshot(fn), code, visited, blocks, k)
      invariant ok <==> forall j :: 0 <= j < k && blocks[j] in code && blocks[j] !in visited ==> !SameTargets(code[blocks[j]])
    {
      ghost var v := Snapshot(fn);
      ClearStep(v, code, visited, blocks, k);
      if blocks[k] !in visited {
        var done := blocks[k].Reset(fn);
        ok := ok && done;
      }
    }
  }

  lemma SearchCleared(v: View<BasicBlock>, code: Code<BasicBlock>, visited: set<BasicBlock>, blocks: seq<BasicBlock>)
    requires Linked(v) && AllMatch(v) && code == CodeOf(v)
    ensures Cleared(v, code, visited, blocks, 0)
  {
  }

  /** Remove the unvisited blocks from the list of blocks. The result says whether any of them refused. */
  method RemoveUnvisited(ghost fn: Function, blocks: seq<BasicBlock>, visited: set<BasicBlock>, ghost code: Code<BasicBlock>)
    returns (kept: seq<BasicBlock>, refused: bool)
    requires forall b :: b in fn <==> b in blocks
    requires Cleared(Snapshot(fn), code, visited, blocks, |blocks|)
    requires forall p :: p in visited ==> p in code && StaysIn(code, visited, p)
    modifies fn
    ensures kept == Keep(blocks, visited) && !refused
    ensures Cleared(Snapshot(fn), code, visited, blocks, |blocks|)
  {
    hide Linked, Matches, StaysIn;
    kept, refused := [], false;
    for k := 0 to |blocks|
      invariant Cleared(Snapshot(fn), code, visited, blocks, |blocks|)
      invariant kept == Keep(blocks[..k], visited) && !refused
    {
      KeepNext(blocks, visited, k);
      if blocks[k] in visited {
        kept := kept + [blocks[k]];
      } else {
        ghost var v := Snapshot(fn);
        NothingIncoming(v, code, visited, blocks, blocks[k]);
        assert v[blocks[k]] == blocks[k].State();
        ResetAgain(v, code, visited, blocks, blocks[k]);
        var removed := blocks[k].Remove(fn);
        refused := refused || !removed;
      }
    }
    assert blocks[..|blocks|] == blocks;
  }

  lemma KeepNext(blocks: seq<BasicBlock>, visited: set<BasicBlock>, k: nat)
    requires k < |blocks|
    ensures Keep(blocks[..k + 1], visited) == Keep(blocks[..k], visited) + (if blocks[k] in visited then [blocks[k]] else [])
  {
    assert blocks[..k + 1][..k] == blocks[..k];
  }

  lemma ResetAgain(v: View<BasicBlock>, code: Code<BasicBlock>, visited: set<BasicBlock>, blocks: seq<BasicBlock>, b: BasicBlock)
    requires Cleared(v, code, visited, blocks, |blocks|) && b in v && b !in visited
    ensures Cleared(ResetView(v, b), code, visited, blocks, |blocks|)
  {
    hide Linked, Matches, ResetView;
    ResetStep(v, b);
    ResetOthers(v, b);
  }

  /**
   The whole pass. What stays is exactly what can be reached from the first block after
   folding; the two views of every edge agree; no block refuses to be removed; and every run
   executes the same instructions as before. The assertions on the way hold exactly if no
   branch had the same block as target twice.
   */
  method RunOnFunction(blocks: seq<BasicBlock>) returns (kept: seq<BasicBlock>, ok: bool, refused: bool)
    requires blocks != [] && (forall i, j :: 0 <= i < j < |blocks| ==> blocks[i] != blocks[j])
    requires Linked(Snapshot(Blocks(blocks))) && AllMatch(Snapshot(Blocks(blocks)))
    requires forall b :: b in blocks && Reachable(FoldAll(CodeOf(Snapshot(Blocks(blocks)))), blocks[0], b) ==> Complete(b.insts)
    modifies Blocks(blocks)
    ensures !refused && (ok <==> forall b :: b in blocks ==> !old(SameTargets(b.insts)))
    ensures Linked(Snapshot(Blocks(blocks))) && AllMatch(Snapshot(Blocks(blocks)))
    ensures forall b :: b in kept <==> b in blocks && Reachable(FoldAll(old(CodeOf(Snapshot(Blocks(blocks))))), blocks[0], b)
    ensures kept != [] && kept[0] == blocks[0] && forall i, j :: 0 <= i < j < |kept| ==> kept[i] != kept[j]
    ensures forall b :: b in blocks && b !in kept ==> IsIncomplete(b.State())
    ensures forall b :: b in kept ==> b.insts == Folded(old(b.insts))
    ensures forall b, choices, n: nat :: b in kept ==>
              Trace(CodeOf(Snapshot(Blocks(blocks))), b, choices, n) == Trace(old(CodeOf(Snapshot(Blocks(blocks)))), b, choices, n)
  {
    hide Linked, Matches, Reachable, Searched, Folded, SameTargets, Trace, StaysIn, Cleared, FoldAll, AllMatch, DistinctIn, PartlyFolded, Keep, Complete, ResetView;
    ghost var fn := Blocks(blocks);
    ghost var code := CodeOf(Snapshot(fn));
    var visited, distinct := Search(fn, blocks[0]);
    SearchEnds(code, blocks[0], visited);
    ghost var searched := CodeOf(Snapshot(fn));
    SearchCleared(Snapshot(fn), searched, visited, blocks);
    var cleared := ClearUnvisited(fn, blocks, visited, searched);
    StaysFolded(code, visited);
    kept, refused := RemoveUnvisited(fn, blocks, visited, searched);
    ok := distinct && cleared;
    Finished(fn, code, visited, blocks);
    KeepsVisited(blocks, visited);
    KeepsOrder(blocks, visited);
    OthersIncomplete(fn, searched, visited, blocks);
    EntryReachable(FoldAll(code), blocks[0]);
    AllDistinct(code, visited, distinct, cleared);
    assert forall b :: b in fn ==> CodeOf(Snapshot(fn))[b] == b.insts;
  }

  lemma KeepsVisited(blocks: seq<BasicBlock>, visited: set<BasicBlock>)
    ensures forall b :: b in Keep(blocks, visited) <==> b in blocks && b in visited
  {
    if blocks != [] {
      var n := |blocks| - 1;
      assert blocks == blocks[..n] + [blocks[n]];
      KeepsVisited(blocks[..n], visited);
    }
  }

  lemma {:induction false} KeepsOrder(blocks: seq<BasicBlock>, visited: set<BasicBlock>)
    requires forall i, j :: 0 <= i < j < |blocks| ==> blocks[i] != blocks[j]
    ensures forall i, j :: 0 <= i < j < |Keep(blocks, visited)| ==> Keep(blocks, visited)[i] != Keep(blocks, visited)[j]
    ensures blocks != [] && blocks[0] in visited ==> Keep(blocks, visited) != [] && Keep(blocks, visited)[0] == blocks[0]
  {
    if blocks != [] {
      var n := |blocks| - 1;
      KeepsOrder(blocks[..n], visited);
      KeepsVisited(blocks[..n], visited);
      assert blocks[n] !in blocks[..n];
    }
  }

  lemma OthersIncomplete(fn: Function, code: Code<BasicBlock>, visited: set<BasicBlock>, blocks: seq<BasicBlock>)
    requires Cleared(Snapshot(fn), code, visited, blocks, |blocks|) && forall b :: b in fn <==> b in blocks
    ensures forall b :: b in blocks && b !in visited ==> IsIncomplete(b.State())
  {
    hide Linked, Matches;
    forall b | b in blocks && b !in visited
      ensures IsIncomplete(b.State())
    {
      assert Snapshot(fn)[b] == b.State();
    }
  }

  lemma AllDistinct(code: Code<BasicBlock>, visited: set<BasicBlock>, distinct: bool, cleared: bool)
    requires distinct <==> DistinctIn(code, visited)
    requires cleared <==> forall b :: b in code && b !in visited ==> !SameTargets(PartlyFolded(code, visited)[b])
    ensures distinct && cleared <==> forall b :: b in code ==> !SameTargets(code[b])
  {
  }

  lemma Finished(fn: Function, code: Code<BasicBlock>, visited: set<BasicBlock>, blocks: seq<BasicBlock>)
    requires Cleared(Snapshot(fn), PartlyFolded(code, visited), visited, blocks, |blocks|) && visited <= fn
    requires forall b :: b in visited ==> b in code && StaysIn(FoldAll(code), visited, b)
    ensures Linked(Snapshot(fn)) && AllMatch(Snapshot(fn))
    ensures forall b :: b in visited ==> b in code && b.insts == Folded(code[b])
    ensures forall b, choices, n: nat :: b in visited ==> Trace(CodeOf(Snapshot(fn)), b, choices, n) == Trace(code, b, choices, n)
  {
    hide Linked, Matches, Folded, Trace, StaysIn;
    var after := CodeOf(Snapshot(fn));
    forall b | b in visited
      ensures b in after && b in code && after[b] == b.insts == Folded(code[b]) && StaysIn(after, visited, b)
    {
      assert Snapshot(fn)[b].insts == b.insts;
      SameStays(FoldAll(code), after, visited, b);
    }
    forall b, choices, n: nat | b in visited
      ensures Trace(after, b, choices, n) == Trace(code, b, choices, n)
    {
      FoldTrace(code, after, visited, b, choices, n);
    }
  }

  lemma SameStays(a: Code<BasicBlock>, c: Code<BasicBlock>, visited: set<BasicBlock>, b: BasicBlock)
    requires b in a && b in c && a[b] == c[b] && StaysIn(a, visited, b)
    ensures StaysIn(c, visited, b)
  {
  }

  ghost function Blocks(blocks: seq<BasicBlock>): set<BasicBlock> {
    set b | b in blocks
  }

  lemma StaysFolded(code: Code<BasicBlock>, visited: set<BasicBlock>)
    requires forall b :: b in visited ==> b in code && StaysIn(FoldAll(code), visited, b)
    ensures forall b :: b in visited ==> b in PartlyFolded(code, visited) && StaysIn(PartlyFolded(code, visited), visited, b)
  {
  }

  /** A block with a branch that has one block as target twice, and that block. */
  method BranchToOne(a: BasicBlock, b: BasicBlock)
    requires a != b && a.State() == b.State() == Node(None, Null, Null, {}, [])
    modifies a, b
    ensures Linked(Snapshot({a, b})) && AllMatch(Snapshot({a, b}))
    ensures a.insts == [CondBr(Id(0), b, b)] && b.insts == [Ret(None)]
  {
    hide Linked, Matches, EndedView;
    ghost var fn := {a, b};
    AloneLinked(fn);
    ghost var v := Snapshot(fn);
    EndStep(v, b, Ret(None));
    var ok := b.ResetToTerminal(fn, true);
    ghost var w := Snapshot(fn);
    EndStep(w, a, CondBr(Id(0), b, b));
    FromSnapshot(fn, w);
    ok := a.ResetBranch(fn, Id(0), b, b);
    FromSnapshot(fn, EndedView(w, a, CondBr(Id(0), b, b)));
  }

  /** A branch with the same block as target twice makes an assertion of the pass fail. */
  method BothWaysToOne() returns (ok: bool)
    ensures !ok
  {
    hide Linked, AllMatch, Reachable, FoldAll, Trace, Folded;
    var a := new BasicBlock();
    var b := new BasicBlock();
    BranchToOne(a, b);
    var blocks := [a, b];
    assert Blocks(blocks) == {a, b};
    var kept, refused;
    kept, ok, refused := RunOnFunction(blocks);
    assert a in blocks;
  }
}
