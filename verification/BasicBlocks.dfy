/** Basic blocks as objects, and the edits of their edges. */
module BasicBlocks {
  import opened Options
  import opened BlockRuns
  import opened BlockViews

  type Function = set<BasicBlock>

  ghost function Snapshot(fn: Function): View<BasicBlock>
    reads fn
  {
    map b | b in fn :: b.State()
  }

  lemma TargetsByFields(a: Node<BasicBlock>, b: Node<BasicBlock>)
    requires a.branch == b.branch && a.branchElse == b.branchElse
    ensures EqualTargets(a) <==> EqualTargets(b)
    ensures a.branchElse == Null ==> !EqualTargets(a)
  {
  }

  lemma FromSnapshot(fn: Function, v: View<BasicBlock>)
    requires Snapshot(fn) == v
    ensures v.Keys == fn && forall b :: b in fn ==> b.State() == v[b] && b.insts == v[b].insts
  {
    assert forall b :: b in fn ==> Snapshot(fn)[b] == b.State();
  }

  class BasicBlock {
    var control: Option<Value>
    var branch: Link<BasicBlock>
    var branchElse: Link<BasicBlock>
    var inBlocks: set<BasicBlock>
    var insts: seq<Inst<BasicBlock>>

    constructor ()
      ensures State() == Node(None, Null, Null, {}, [])
    {
      control, branch, branchElse, inBlocks, insts := None, Null, Null, {}, [];
    }

    function State(): Node<BasicBlock>
      reads this
    {
      Node(control, branch, branchElse, inBlocks, insts)
    }

    method AddIncoming(inBlock: BasicBlock)
      modifies this`inBlocks
      ensures inBlocks == old(inBlocks) + {inBlock}
    {
      inBlocks := inBlocks + {inBlock};
    }

    /** The result says whether the assertion that the edge is there holds. */
    method UnlinkFrom(inBlock: BasicBlock) returns (ok: bool)
      modifies this`inBlocks
      ensures ok == (inBlock in old(inBlocks)) && inBlocks == old(inBlocks) - {inBlock}
    {
      ok := inBlock in inBlocks;
      inBlocks := inBlocks - {inBlock};
    }

    /** Unlink from both targets, the second one first. */
    method Unlink(ghost fn: Function) returns (ok: bool)
      requires this in fn && Linked(Snapshot(fn))
      modifies fn
      ensures ok <==> !EqualTargets(old(State()))
      ensures Snapshot(fn) == Detached(old(Snapshot(fn)), this)
    {
      ghost var v := Snapshot(fn);
      assert TargetsIn(v[this], v.Keys);
      ok := true;
      if branchElse.To? {
        assert EdgeAgrees(v, this, branchElse.block);
        var done := branchElse.block.UnlinkFrom(this);
        ok := done;
      }
      if branch.To? {
        assert EdgeAgrees(v, this, branch.block);
        var done := branch.block.UnlinkFrom(this);
        ok := ok && done;
      }
      control, branch, branchElse := None, Null, Null;
      forall b | b in fn
        ensures b.State() == DetachedNode(v, this, b)
      {
      }
      assert Snapshot(fn) == Detached(v, this);
    }

    /** Drop edges and terminator; every other instruction stays in its place. The assertions hold unless both targets are the same block. */
    method Reset(ghost fn: Function) returns (ok: bool)
      requires this in fn && Linked(Snapshot(fn))
      modifies fn
      ensures ok <==> !EqualTargets(old(State()))
      ensures Snapshot(fn) == ResetView(old(Snapshot(fn)), this)
      ensures old(Matches(State())) ==> insts == Unterminated(old(insts))
      ensures Plains(insts) == Plains(old(insts))
    {
      ghost var v := Snapshot(fn);
      ResetKeeps(v, this);
      var rest := Stripped(State());
      assert TargetsIn(v[this], v.Keys);
      ok := true;
      if !IsIncomplete(State()) {
        ok := Unlink(fn);
      }
      control, branch, branchElse := None, Null, Null;
      insts := rest;
      assert Snapshot(fn) == ResetView(v, this);
    }

    /** Set the branch fields of a block without edges, and tell the targets. */
    method Attach(ghost fn: Function, control: Option<Value>, branch: Link<BasicBlock>, branchElse: Link<BasicBlock>)
      requires this in fn && (branch.To? ==> branch.block in fn) && (branchElse.To? ==> branchElse.block in fn)
      modifies fn
      ensures Snapshot(fn) == Attached(old(Snapshot(fn)), this, control, branch, branchElse)
    {
      ghost var v := Snapshot(fn);
      this.control, this.branch, this.branchElse := control, branch, branchElse;
      if branch.To? {
        branch.block.AddIncoming(this);
      }
      if branchElse.To? {
        branchElse.block.AddIncoming(this);
      }
      forall b | b in fn
        ensures b.State() == AttachedNode(v, this, control, branch, branchElse, b)
      {
      }
      assert Snapshot(fn) == Attached(v, this, control, branch, branchElse);
    }

    /** Jump to `target`. */
    method ResetTo(ghost fn: Function, target: BasicBlock) returns (ok: bool)
      requires this in fn && target in fn && Linked(Snapshot(fn))
      modifies fn
      ensures ok <==> !EqualTargets(old(State()))
      ensures Snapshot(fn) == EndedView(old(Snapshot(fn)), this, Br(target))
      ensures old(Matches(State())) ==> insts == Unterminated(old(insts)) + [Br(target)]
      ensures Plains(insts) == Plains(old(insts))
    {
      hide Linked, Detached, Attached, ResetView, EqualTargets, Matches, Unterminated, Plains;
      ghost var v := Snapshot(fn);
      ok := Reset(fn);
      ghost var w := Snapshot(fn);
      insts := insts + [Br(target)];
      assert Snapshot(fn) == WithInsts(w, this, w[this].insts + [Br(target)]);
      Attach(fn, None, To(target), Null);
      EndedKeeps(v, this, Br(target));
      FromSnapshot(fn, EndedView(v, this, Br(target)));
    }

    /** Jump to the terminal block, that is, return without a value; it is asserted that the function has none. */
    method ResetToTerminal(ghost fn: Function, isVoid: bool) returns (ok: bool)
      requires this in fn && Linked(Snapshot(fn))
      modifies fn
      ensures ok <==> isVoid && !EqualTargets(old(State()))
      ensures Snapshot(fn) == EndedView(old(Snapshot(fn)), this, Ret(None))
      ensures old(Matches(State())) ==> insts == Unterminated(old(insts)) + [Ret(None)]
      ensures Plains(insts) == Plains(old(insts))
    {
      hide Linked, EndedView, EqualTargets, Matches, Unterminated, Plains;
      ok := EndByReturn(fn, None);
      ok := ok && isVoid;
    }

    method EndByReturn(ghost fn: Function, value: Option<Value>) returns (ok: bool)
      requires this in fn && Linked(Snapshot(fn))
      modifies fn
      ensures ok <==> !EqualTargets(old(State()))
      ensures Snapshot(fn) == EndedView(old(Snapshot(fn)), this, Ret(value))
      ensures old(Matches(State())) ==> insts == Unterminated(old(insts)) + [Ret(value)]
      ensures Plains(insts) == Plains(old(insts))
      ensures old(IsIncomplete(State())) ==> insts == old(insts) + [Ret(value)]
    {
      hide Linked, Detached, Attached, ResetView, EqualTargets, Matches, Unterminated, Plains;
      ghost var v := Snapshot(fn);
      ok := Reset(fn);
      ghost var w := Snapshot(fn);
      insts := insts + [Ret(value)];
      assert Snapshot(fn) == WithInsts(w, this, w[this].insts + [Ret(value)]);
      Attach(fn, None, Terminal, Null);
      EndedKeeps(v, this, Ret(value));
      FromSnapshot(fn, EndedView(v, this, Ret(value)));
    }

    /** Branch on `control`. */
    method ResetBranch(ghost fn: Function, control: Value, branch: BasicBlock, branchElse: BasicBlock) returns (ok: bool)
      requires this in fn && branch in fn && branchElse in fn && Linked(Snapshot(fn))
      modifies fn
      ensures ok <==> !EqualTargets(old(State()))
      ensures Snapshot(fn) == EndedView(old(Snapshot(fn)), this, CondBr(control, branch, branchElse))
      ensures old(Matches(State())) ==> insts == Unterminated(old(insts)) + [CondBr(control, branch, branchElse)]
      ensures Plains(insts) == Plains(old(insts))
    {
      hide Linked, Detached, Attached, ResetView, EqualTargets, Matches, Unterminated, Plains;
      ghost var v := Snapshot(fn);
      ok := Reset(fn);
      ghost var w := Snapshot(fn);
      insts := insts + [CondBr(control, branch, branchElse)];
      assert Snapshot(fn) == WithInsts(w, this, w[this].insts + [CondBr(control, branch, branchElse)]);
      Attach(fn, Some(control), To(branch), To(branchElse));
      EndedKeeps(v, this, CondBr(control, branch, branchElse));
      FromSnapshot(fn, EndedView(v, this, CondBr(control, branch, branchElse)));
    }

    /** End an incomplete block by a return; without result if the function has none, else with the hint if its type fits. */
    method TryMarkAsTerminal(ghost fn: Function, isVoid: bool, hint: Option<Value>, hintFits: bool) returns (ok: bool)
      requires this in fn && Linked(Snapshot(fn))
      modifies fn
      ensures ok <==> old(IsIncomplete(State())) && (isVoid || (hint.Some? && hintFits))
      ensures Snapshot(fn) == if ok then EndedView(old(Snapshot(fn)), this, Ret(if isVoid then None else hint)) else old(Snapshot(fn))
      ensures insts == if ok then old(insts) + [Ret(if isVoid then None else hint)] else old(insts)
    {
      if !IsIncomplete(State()) || (!isVoid && !(hint.Some? && hintFits)) {
        return false;
      }
      hide Linked, EndedView, EqualTargets, Matches, Unterminated, Plains;
      ok := EndByReturn(fn, if isVoid then None else hint);
      ok := true;
    }

    /** Make the edges those of the last instruction, when that is a terminator. */
    method SyncFlowWithInst(ghost fn: Function) returns (ok: bool)
      requires this in fn && Linked(Snapshot(fn))
      requires insts != [] ==> TargetsKnown(insts[|insts| - 1], fn)
      modifies fn
      ensures ok <==> old(insts) == [] || old(insts)[|old(insts)| - 1].Plain? || !EqualTargets(old(State()))
      ensures Snapshot(fn) == SyncedView(old(Snapshot(fn)), this)
    {
      if insts == [] || insts[|insts| - 1].Plain? {
        return true;
      }
      ok := Unlink(fn);
      match insts[|insts| - 1] {
        case Plain(_) =>
        case Br(t) =>
          Attach(fn, None, To(t), Null);
        case CondBr(c, t, f) =>
          Attach(fn, Some(c), To(t), To(f));
        case Ret(_) =>
          Attach(fn, None, Terminal, Null);
      }
    }

    /** A block with incoming edges stays; otherwise its own edges are dropped and it may leave the function. */
    method Remove(ghost fn: Function) returns (removed: bool)
      requires this in fn && Linked(Snapshot(fn))
      modifies fn
      ensures removed <==> old(inBlocks) == {}
      ensures Snapshot(fn) == if removed then ResetView(old(Snapshot(fn)), this) else old(Snapshot(fn))
    {
      if inBlocks != {} {
        return false;
      }
      var ok := Reset(fn);
      removed := true;
    }

    /** Move what follows instruction `k` to a new block, and jump there. */
    method InsertNewBlockAfter(ghost fn: Function, k: nat) returns (block: BasicBlock, ok: bool)
      requires this in fn && Linked(Snapshot(fn)) && k < |insts| && insts[k].Plain? && forall b :: b in fn ==> Matches(b.State())
      modifies fn
      ensures fresh(block) && (ok <==> !EqualTargets(old(State())))
      ensures Linked(Snapshot(fn + {block})) && forall b :: b in fn + {block} ==> Matches(b.State())
      ensures insts == old(insts)[..k + 1] + [Br(block)] && block.insts == old(insts)[k + 1..]
      ensures forall b :: b in fn && b != this ==> b.insts == old(b.insts)
      ensures forall b :: b in fn ==> SameRuns(old(CodeOf(Snapshot(fn))), CodeOf(Snapshot(fn + {block})), b)
    {
      hide Linked, Matches, EqualTargets, SameRuns, CodeOf;
      ghost var v := Snapshot(fn);
      block := MoveRest(fn, k);
      ghost var all := fn + {block};
      SplitReady(v, this, block, k);
      SplitConsistent(v, this, block, k);
      hide MovedView, SyncedView, EndedView;
      TargetsByFields(Snapshot(all)[block], Node(None, Null, Null, {}, []));
      var synced := block.SyncFlowWithInst(all);
      TargetsByFields(v[this], State());
      ok := ResetTo(all, block);
      ok := ok && synced;
      FromSnapshot(all, SplitView(v, this, block, k));
      forall b | b in fn
        ensures SameRuns(CodeOf(v), CodeOf(Snapshot(all)), b)
      {
        SplitRuns(v, SplitView(v, this, block, k), this, block, k, b);
      }
    }

    /** The instructions only. */
    method MoveRest(ghost fn: Function, k: nat) returns (block: BasicBlock)
      requires this in fn && k < |insts|
      modifies this`insts
      ensures fresh(block) && block !in fn
      ensures Snapshot(fn + {block}) == MovedView(old(Snapshot(fn)), this, block, k)
      ensures block.branch == Null && block.branchElse == Null && block.insts == old(insts)[k + 1..]
    {
      ghost var v := Snapshot(fn);
      block := new BasicBlock();
      block.insts := insts[k + 1..];
      insts := insts[..k + 1];
      assert Snapshot(fn + {block}) == MovedView(v, this, block, k);
    }
  }

  lemma AloneLinked(fn: Function)
    requires forall b :: b in fn ==> b.State() == Node(None, Null, Null, {}, [])
    ensures Linked(Snapshot(fn)) && forall b :: b in fn ==> Matches(b.State())
  {
    var v := Snapshot(fn);
    forall b | b in v
      ensures TargetsIn(v[b], v.Keys)
    {
    }
  }

  /** A branch may be given one block as both targets; when the branch is replaced later, an assertion fails. */
  method BothWaysToOne() returns (first: bool, second: bool)
    ensures first && !second
  {
    var a := new BasicBlock();
    var b := new BasicBlock();
    ghost var fn := {a, b};
    AloneLinked(fn);
    ghost var v := Snapshot(fn);
    first := a.ResetBranch(fn, Id(0), b, b);
    EndedLinked(v, a, CondBr(Id(0), b, b));
    FromSnapshot(fn, EndedView(v, a, CondBr(Id(0), b, b)));
    second := a.ResetTo(fn, b);
  }
}
