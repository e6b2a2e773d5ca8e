/**
 Basic blocks keep their edges twice: in the branch fields of the source block and in the
 set of incoming blocks of the target. This module says what it means that the two agree,
 with each other and with the last instruction, and what every edit does to that.
 */
module BlockViews {
  import opened Options

  datatype Value = Imm(n: int) | Id(v: nat)

  /** An instruction of blocks of type `B`. */
  datatype Inst<B> = Plain(id: nat) | Br(target: B) | CondBr(control: Value, onTrue: B, onFalse: B) | Ret(value: Option<Value>)

  datatype Link<B> = Null | Terminal | To(block: B)

  datatype Node<B> = Node(control: Option<Value>, branch: Link<B>, branchElse: Link<B>, inBlocks: set<B>, insts: seq<Inst<B>>)

  type View<!B> = map<B, Node<B>>

  predicate IsTerminator<B>(i: Inst<B>) {
    !i.Plain?
  }

  // ---- the branch fields of one block ----

  predicate IsIncomplete<B>(n: Node<B>) {
    n.branch.Null?
  }

  predicate IsTerminal<B>(n: Node<B>) {
    n.branch.Terminal?
  }

  predicate IsLinear<B>(n: Node<B>) {
    !n.branch.Null? && n.branchElse.Null?
  }

  predicate IsBranched<B>(n: Node<B>) {
    !n.branchElse.Null?
  }

  ghost predicate HasTarget<B>(n: Node<B>, b: B) {
    n.branch == To(b) || n.branchElse == To(b)
  }

  /** Both ways of a branch lead to the same block. */
  predicate EqualTargets<B(==)>(n: Node<B>) {
    n.branchElse.To? && n.branch == n.branchElse
  }

  /** The fields say something else than the last instruction. */
  predicate IsOutdated<B>(n: Node<B>) {
    !IsIncomplete(n) &&
    (n.insts == [] ||
     match n.insts[|n.insts| - 1]
     case Plain(_) => true
     case Br(_) => !IsLinear(n)
     case CondBr(_, _, _) => !IsBranched(n)
     case Ret(_) => !IsTerminal(n))
  }

  /** The branch fields are those of the last instruction, and only the last instruction is a terminator. */
  ghost predicate Matches<B>(n: Node<B>) {
    && (forall k :: 0 <= k < |n.insts| - 1 ==> n.insts[k].Plain?)
    && if n.insts == [] || n.insts[|n.insts| - 1].Plain? then n.control == None && n.branch == Null && n.branchElse == Null
       else
         match n.insts[|n.insts| - 1]
         case Plain(_) => false
         case Br(t) => n.control == None && n.branch == To(t) && n.branchElse == Null
         case CondBr(c, x, y) => n.control == Some(c) && n.branch == To(x) && n.branchElse == To(y)
         case Ret(_) => n.control == None && n.branch == Terminal && n.branchElse == Null
  }

  // ---- all blocks of a function ----

  /** The targets of every block are blocks of the function. */
  ghost predicate Closed<B>(v: View<B>) {
    forall p :: p in v ==> TargetsIn(v[p], v.Keys)
  }

  ghost predicate TargetsIn<B>(n: Node<B>, blocks: set<B>) {
    && (n.branch.To? ==> n.branch.block in blocks)
    && (n.branchElse.To? ==> n.branchElse.block in blocks)
    && n.inBlocks <= blocks && !n.branchElse.Terminal?
    && (n.branch.Null? ==> n.branchElse.Null?)
  }

  /** `p` is an incoming block of `b` exactly if an edge goes from `p` to `b`. */
  ghost predicate Linked<B>(v: View<B>) {
    Closed(v) && forall p, b :: p in v && b in v ==> EdgeAgrees(v, p, b)
  }

  ghost predicate EdgeAgrees<B>(v: View<B>, p: B, b: B)
    requires p in v && b in v
  {
    p in v[b].inBlocks <==> HasTarget(v[p], b)
  }

  // ---- edits ----

  /** Block `s` loses its edges. */
  ghost function DetachedNode<B>(v: View<B>, s: B, b: B): Node<B>
    requires s in v && b in v
  {
    var n := if HasTarget(v[s], b) then v[b].(inBlocks := v[b].inBlocks - {s}) else v[b];
    if b == s then n.(control := None, branch := Null, branchElse := Null) else n
  }

  ghost function Detached<B>(v: View<B>, s: B): View<B>
    requires s in v
  {
    map b | b in v :: DetachedNode(v, s, b)
  }

  ghost function WithInsts<B>(v: View<B>, s: B, insts: seq<Inst<B>>): View<B>
    requires s in v
  {
    v[s := v[s].(insts := insts)]
  }

  /** What is left of the instructions: the terminator goes, unless the fields did not know about it. */
  function Stripped<B>(n: Node<B>): seq<Inst<B>> {
    if IsIncomplete(n) || IsOutdated(n) then n.insts else n.insts[..|n.insts| - 1]
  }

  /** All instructions, or all but the last one when that is a terminator. */
  ghost function Unterminated<B>(insts: seq<Inst<B>>): seq<Inst<B>> {
    if insts != [] && !insts[|insts| - 1].Plain? then insts[..|insts| - 1] else insts
  }

  /** The instructions of a block that are no terminators, in their order. */
  function Plains<B>(insts: seq<Inst<B>>): seq<Inst<B>> {
    if insts == [] then []
    else if insts[0].Plain? then [insts[0]] + Plains(insts[1..])
    else Plains(insts[1..])
  }

  lemma {:induction false} PlainsSum<B>(a: seq<Inst<B>>, b: seq<Inst<B>>)
    ensures Plains(a + b) == Plains(a) + Plains(b)
  {
    if a == [] {
      assert a + b == b;
    } else {
      assert (a + b)[1..] == a[1..] + b;
      PlainsSum(a[1..], b);
    }
  }

  lemma {:induction false} AllPlain<B>(insts: seq<Inst<B>>)
    requires forall k :: 0 <= k < |insts| ==> insts[k].Plain?
    ensures Plains(insts) == insts
  {
    if insts != [] {
      AllPlain(insts[1..]);
    }
  }

  lemma StrippedPlains<B>(n: Node<B>)
    ensures Plains(Stripped(n)) == Plains(n.insts)
    ensures Matches(n) ==> Stripped(n) == Plains(n.insts) == Unterminated(n.insts)
  {
    if n.insts != [] {
      var m := |n.insts| - 1;
      assert n.insts == n.insts[..m] + [n.insts[m]];
      PlainsSum(n.insts[..m], [n.insts[m]]);
      assert n.insts[m].Plain? ==> Stripped(n) == n.insts;
    }
    if Matches(n) {
      AllPlain(Stripped(n));
    }
  }

  /** Whatever its fields say, a block that loses its edges keeps every instruction that is no terminator. */
  lemma ResetKeeps<B>(v: View<B>, s: B)
    requires s in v
    ensures var w, was := ResetView(v, s), v[s].insts;
            && Plains(w[s].insts) == Plains(was)
            && (Matches(v[s]) ==> w[s].insts == Unterminated(was))
            && (IsIncomplete(v[s]) ==> w[s].insts == was)
            && forall b :: b in v && b != s ==> w[b].insts == v[b].insts
  {
    StrippedPlains(v[s]);
  }

  ghost function ResetView<B>(v: View<B>, s: B): View<B>
    requires s in v
  {
    WithInsts(Detached(v, s), s, Stripped(v[s]))
  }

  /** Block `s`, which has no edges, gets new ones. */
  ghost function AttachedNode<B>(v: View<B>, s: B, control: Option<Value>, branch: Link<B>, branchElse: Link<B>, b: B): Node<B>
    requires s in v && b in v
  {
    var n := if branch == To(b) || branchElse == To(b) then v[b].(inBlocks := v[b].inBlocks + {s}) else v[b];
    if b == s then n.(control := control, branch := branch, branchElse := branchElse) else n
  }

  ghost function Attached<B>(v: View<B>, s: B, control: Option<Value>, branch: Link<B>, branchElse: Link<B>): View<B>
    requires s in v
  {
    map b | b in v :: AttachedNode(v, s, control, branch, branchElse, b)
  }

  lemma DetachedLinked<B>(v: View<B>, s: B)
    requires Linked(v) && s in v
    ensures Linked(Detached(v, s)) && Detached(v, s).Keys == v.Keys
  {
    var d := Detached(v, s);
    forall p | p in d
      ensures TargetsIn(d[p], d.Keys)
    {
      assert TargetsIn(v[p], v.Keys);
    }
    forall p, b | p in d && b in d
      ensures EdgeAgrees(d, p, b)
    {
      assert EdgeAgrees(v, p, b);
    }
  }

  lemma WithInstsLinked<B>(v: View<B>, s: B, insts: seq<Inst<B>>)
    requires Linked(v) && s in v
    ensures Linked(WithInsts(v, s, insts)) && WithInsts(v, s, insts).Keys == v.Keys
  {
    var d := WithInsts(v, s, insts);
    forall p | p in d
      ensures TargetsIn(d[p], d.Keys)
    {
      assert TargetsIn(v[p], v.Keys);
    }
    forall p, b | p in d && b in d
      ensures EdgeAgrees(d, p, b)
    {
      assert EdgeAgrees(v, p, b);
    }
  }

  lemma AttachedLinked<B>(v: View<B>, s: B, control: Option<Value>, branch: Link<B>, branchElse: Link<B>)
    requires Linked(v) && s in v && IsIncomplete(v[s])
    requires (branch.To? ==> branch.block in v) && (branchElse.To? ==> branchElse.block in v) && !branchElse.Terminal?
    requires branch.Null? ==> branchElse.Null?
    ensures Linked(Attached(v, s, control, branch, branchElse)) && Attached(v, s, control, branch, branchElse).Keys == v.Keys
  {
    var d := Attached(v, s, control, branch, branchElse);
    forall p | p in d
      ensures TargetsIn(d[p], d.Keys)
    {
      assert TargetsIn(v[p], v.Keys);
    }
    forall p, b | p in d && b in d
      ensures EdgeAgrees(d, p, b)
    {
      assert EdgeAgrees(v, p, b);
    }
  }

  lemma ResetLinked<B>(v: View<B>, s: B)
    requires Linked(v) && s in v
    ensures Linked(ResetView(v, s)) && ResetView(v, s).Keys == v.Keys
  {
    DetachedLinked(v, s);
    WithInstsLinked(Detached(v, s), s, Stripped(v[s]));
  }

  /** Resetting a block whose fields match leaves it without terminator; all other blocks match as before. */
  lemma ResetMatches<B>(v: View<B>, s: B, b: B)
    requires s in v && b in v && Matches(v[b])
    ensures Matches(ResetView(v, s)[b]) && (b == s ==> IsIncomplete(ResetView(v, s)[b]))
  {
  }

  // ---- ending a block anew ----

  ghost function EndedView<B>(v: View<B>, s: B, inst: Inst<B>): View<B>
    requires s in v
  {
    var w := ResetView(v, s);
    var x := WithInsts(w, s, w[s].insts + [inst]);
    match inst
    case Plain(_) => x
    case Br(t) => Attached(x, s, None, To(t), Null)
    case CondBr(c, t, f) => Attached(x, s, Some(c), To(t), To(f))
    case Ret(_) => Attached(x, s, None, Terminal, Null)
  }

  /** The new terminator follows what was there before the old one. */
  lemma EndedKeeps<B>(v: View<B>, s: B, inst: Inst<B>)
    requires s in v && IsTerminator(inst)
    ensures EndedView(v, s, inst).Keys == v.Keys
    ensures var w, was := EndedView(v, s, inst), v[s].insts;
            && Plains(w[s].insts) == Plains(was)
            && (Matches(v[s]) ==> w[s].insts == Unterminated(was) + [inst])
            && (IsIncomplete(v[s]) ==> w[s].insts == was + [inst])
            && forall b :: b in v && b != s ==> w[b].insts == v[b].insts
  {
    ResetKeeps(v, s);
    hide Stripped, Matches;
    PlainsSum(ResetView(v, s)[s].insts, [inst]);
  }

  /** The edges of block `s` become those of its last instruction, when that is a terminator. */
  ghost function SyncedView<B>(v: View<B>, s: B): View<B>
    requires s in v
  {
    if v[s].insts == [] then v
    else
      match v[s].insts[|v[s].insts| - 1]
      case Plain(_) => v
      case Br(t) => Attached(Detached(v, s), s, None, To(t), Null)
      case CondBr(c, t, f) => Attached(Detached(v, s), s, Some(c), To(t), To(f))
      case Ret(_) => Attached(Detached(v, s), s, None, Terminal, Null)
  }

  lemma SyncedLinked<B>(v: View<B>, s: B)
    requires Linked(v) && s in v && (v[s].insts != [] ==> TargetsKnown(v[s].insts[|v[s].insts| - 1], v.Keys))
    ensures Linked(SyncedView(v, s)) && SyncedView(v, s).Keys == v.Keys
  {
    DetachedLinked(v, s);
    var d := Detached(v, s);
    if v[s].insts != [] {
      match v[s].insts[|v[s].insts| - 1]
      case Plain(_) =>
      case Br(t) => AttachedLinked(d, s, None, To(t), Null);
      case CondBr(c, t, f) => AttachedLinked(d, s, Some(c), To(t), To(f));
      case Ret(_) => AttachedLinked(d, s, None, Terminal, Null);
    }
  }

  /** After syncing, the fields match, whatever they were before. */
  lemma SyncedMatches<B>(v: View<B>, s: B, b: B)
    requires s in v && b in v && (b != s ==> Matches(v[b]))
    requires forall k :: 0 <= k < |v[s].insts| - 1 ==> v[s].insts[k].Plain?
    requires v[s].insts == [] || v[s].insts[|v[s].insts| - 1].Plain? ==> v[s].control == None && v[s].branch == Null && v[s].branchElse == Null
    ensures b in SyncedView(v, s) && Matches(SyncedView(v, s)[b]) && SyncedView(v, s)[b].insts == v[b].insts
  {
    if b != s {
      SyncedKeeps(v, s, b);
      hide SyncedView, Matches;
      FieldsDecide(v[b], SyncedView(v, s)[b]);
    } else {
      SyncedSelf(v, s);
    }
  }

  lemma SyncedSelf<B>(v: View<B>, s: B)
    requires s in v
    requires forall k :: 0 <= k < |v[s].insts| - 1 ==> v[s].insts[k].Plain?
    requires v[s].insts == [] || v[s].insts[|v[s].insts| - 1].Plain? ==> v[s].control == None && v[s].branch == Null && v[s].branchElse == Null
    ensures s in SyncedView(v, s) && Matches(SyncedView(v, s)[s]) && SyncedView(v, s)[s].insts == v[s].insts
  {
  }

  ghost predicate TargetsKnown<B>(inst: Inst<B>, blocks: set<B>) {
    match inst
    case Plain(_) => true
    case Br(t) => t in blocks
    case CondBr(_, t, f) => t in blocks && f in blocks
    case Ret(_) => true
  }

  /** Ending a block keeps the two views of every edge equal. */
  lemma EndedLinked<B>(v: View<B>, s: B, inst: Inst<B>)
    requires Linked(v) && s in v && TargetsKnown(inst, v.Keys)
    ensures Linked(EndedView(v, s, inst)) && EndedView(v, s, inst).Keys == v.Keys
  {
    ResetLinked(v, s);
    var w := ResetView(v, s);
    var x := WithInsts(w, s, w[s].insts + [inst]);
    WithInstsLinked(w, s, w[s].insts + [inst]);
    match inst
    case Plain(_) =>
    case Br(t) => AttachedLinked(x, s, None, To(t), Null);
    case CondBr(c, t, f) => AttachedLinked(x, s, Some(c), To(t), To(f));
    case Ret(_) => AttachedLinked(x, s, None, Terminal, Null);
  }

  /** No terminator is left when the old one has been stripped, or when there was none. */
  ghost predicate StripsTerminator<B>(n: Node<B>) {
    forall k :: 0 <= k < |Stripped(n)| ==> Stripped(n)[k].Plain?
  }

  lemma MatchesStrips<B>(n: Node<B>)
    requires Matches(n)
    ensures StripsTerminator(n)
  {
  }

  lemma EndedMatches<B>(v: View<B>, s: B, inst: Inst<B>, b: B)
    requires s in v && b in v && IsTerminator(inst) && StripsTerminator(v[s]) && (b != s ==> Matches(v[b]))
    ensures Matches(EndedView(v, s, inst)[b])
    ensures EndedView(v, s, inst)[b].insts == if b == s then Stripped(v[s]) + [inst] else v[b].insts
  {
    hide Stripped;
    if b == s {
      var insts := Stripped(v[s]) + [inst];
      assert EndedView(v, s, inst)[b].insts == insts;
      assert forall k :: 0 <= k < |insts| - 1 ==> insts[k] == Stripped(v[s])[k];
    } else {
      FieldsDecide(v[b], EndedView(v, s, inst)[b]);
    }
  }

  lemma FieldsDecide<B>(a: Node<B>, b: Node<B>)
    requires Matches(a) && b == a.(inBlocks := b.inBlocks)
    ensures Matches(b)
  {
  }

  // ---- splitting a block ----

  /** The new block, and the instructions moved to it, before any edge is changed. */
  ghost function MovedView<B>(v: View<B>, p: B, q: B, k: nat): View<B>
    requires p in v && q !in v && k < |v[p].insts|
  {
    WithInsts(v[q := Node(None, Null, Null, {}, v[p].insts[k + 1..])], p, v[p].insts[..k + 1])
  }

  ghost function SplitView<B>(v: View<B>, p: B, q: B, k: nat): View<B>
    requires p in v && q !in v && k < |v[p].insts|
  {
    EndedView(SyncedView(MovedView(v, p, q, k), q), p, Br(q))
  }

  lemma MovedLinked<B>(v: View<B>, p: B, q: B, k: nat)
    requires Linked(v) && p in v && q !in v && k < |v[p].insts|
    ensures var w := MovedView(v, p, q, k); Linked(w) && w.Keys == v.Keys + {q}
  {
    var w := MovedView(v, p, q, k);
    forall a | a in w
      ensures TargetsIn(w[a], w.Keys)
    {
      assert a in v ==> TargetsIn(v[a], v.Keys);
    }
    forall a, b | a in w && b in w
      ensures EdgeAgrees(w, a, b)
    {
      if a in v && b in v {
        assert EdgeAgrees(v, a, b);
      }
      assert a in v ==> TargetsIn(v[a], v.Keys);
      assert b in v ==> TargetsIn(v[b], v.Keys);
    }
  }

  lemma MatchesTargets<B>(v: View<B>, b: B)
    requires Linked(v) && b in v && Matches(v[b])
    ensures v[b].insts != [] ==> TargetsKnown(v[b].insts[|v[b].insts| - 1], v.Keys)
  {
    assert TargetsIn(v[b], v.Keys);
  }

  /** Splitting keeps edges and fields consistent, and only moves instructions. */
  lemma SplitConsistent<B>(v: View<B>, p: B, q: B, k: nat)
    requires Linked(v) && p in v && q !in v && k < |v[p].insts| && v[p].insts[k].Plain? && forall b :: b in v ==> Matches(v[b])
    ensures var w := SplitView(v, p, q, k);
            && Linked(w) && w.Keys == v.Keys + {q} && (forall b :: b in w ==> Matches(w[b]))
            && w[p].insts == v[p].insts[..k + 1] + [Br(q)] && w[q].insts == v[p].insts[k + 1..]
            && forall b :: b in v && b != p ==> w[b].insts == v[b].insts
  {
    hide Linked, Detached, Attached;
    var m := MovedView(v, p, q, k);
    SplitReady(v, p, q, k);
    SplitKeys(v, p, q, k);
    var s := SyncedView(m, q);
    EndedLinked(s, p, Br(q));
    SplitFields(v, p, q, k);
  }

  /** Both edits of a split may be carried out. */
  lemma SplitReady<B>(v: View<B>, p: B, q: B, k: nat)
    requires Linked(v) && p in v && q !in v && k < |v[p].insts| && Matches(v[p])
    ensures var m := MovedView(v, p, q, k);
            && Linked(m) && (m[q].insts != [] ==> TargetsKnown(m[q].insts[|m[q].insts| - 1], m.Keys))
            && Linked(SyncedView(m, q)) && p in SyncedView(m, q)
            && SyncedView(m, q)[p] == v[p].(insts := v[p].insts[..k + 1], inBlocks := SyncedView(m, q)[p].inBlocks)
  {
    hide Linked;
    var m := MovedView(v, p, q, k);
    MovedLinked(v, p, q, k);
    MatchesTargets(v, p);
    var all := v[p].insts;
    assert m[q].insts != [] ==> m[q].insts[|m[q].insts| - 1] == all[|all| - 1];
    SyncedLinked(m, q);
    SyncedKeeps(m, q, p);
  }

  lemma SplitFields<B>(v: View<B>, p: B, q: B, k: nat)
    requires p in v && q !in v && k < |v[p].insts| && v[p].insts[k].Plain? && forall b :: b in v ==> Matches(v[b])
    ensures var w := SplitView(v, p, q, k);
            && w.Keys == v.Keys + {q} && (forall b :: b in v || b == q ==> b in w && Matches(w[b]))
            && w[p].insts == v[p].insts[..k + 1] + [Br(q)] && w[q].insts == v[p].insts[k + 1..]
            && forall b :: b in v && b != p ==> w[b].insts == v[b].insts
  {
    hide SyncedView, EndedView, Matches, Stripped, StripsTerminator;
    SplitKeys(v, p, q, k);
    var s := SyncedView(MovedView(v, p, q, k), q);
    SplitUpper(v, p, q, k);
    var w := SplitView(v, p, q, k);
    forall b | b in v || b == q
      ensures b in w && Matches(w[b]) && w[b].insts == if b == p then v[p].insts[..k + 1] + [Br(q)] else s[b].insts
      ensures b in v && b != p ==> w[b].insts == v[b].insts
      ensures b == q ==> w[b].insts == v[p].insts[k + 1..]
    {
      if b != p {
        SplitOther(v, p, q, k, b);
      }
      EndedMatches(s, p, Br(q), b);
    }
  }

  lemma SplitKeys<B>(v: View<B>, p: B, q: B, k: nat)
    requires p in v && q !in v && k < |v[p].insts|
    ensures SyncedView(MovedView(v, p, q, k), q).Keys == v.Keys + {q}
    ensures SplitView(v, p, q, k).Keys == v.Keys + {q}
  {
  }

  /** The upper half keeps its fields for the moment, so they are out of date, or it was incomplete anyway. */
  lemma SplitUpper<B>(v: View<B>, p: B, q: B, k: nat)
    requires p in v && q !in v && k < |v[p].insts| && v[p].insts[k].Plain? && Matches(v[p])
    ensures var s := SyncedView(MovedView(v, p, q, k), q);
            p in s && StripsTerminator(s[p]) && Stripped(s[p]) == v[p].insts[..k + 1]
  {
    var m := MovedView(v, p, q, k);
    SyncedKeeps(m, q, p);
    hide SyncedView;
    var n := SyncedView(m, q)[p];
    assert n.insts == v[p].insts[..k + 1] && n.insts[|n.insts| - 1].Plain?;
  }

  lemma SplitOther<B>(v: View<B>, p: B, q: B, k: nat, b: B)
    requires p in v && q !in v && k < |v[p].insts| && v[p].insts[k].Plain? && Matches(v[p]) && b != p
    requires b == q || (b in v && Matches(v[b]))
    ensures var s := SyncedView(MovedView(v, p, q, k), q);
            b in s && Matches(s[b]) && s[b].insts == if b == q then v[p].insts[k + 1..] else v[b].insts
  {
    SyncedMatches(MovedView(v, p, q, k), q, b);
    hide SyncedView;
  }

  /** Syncing another block changes at most the incoming blocks of `p`. */
  lemma SyncedKeeps<B>(v: View<B>, s: B, p: B)
    requires s in v && p in v && p != s
    ensures p in SyncedView(v, s)
    ensures var n := SyncedView(v, s)[p]; n == v[p].(inBlocks := n.inBlocks)
  {
  }
}
