/** How the translator changes the graph: append to a block, end a block, add blocks. */
module GraphEdits {
  import opened FlowGraph
  import opened TranslationProofs

  /** Nothing but the current block and new blocks change; new blocks end up complete, except the current one. */
  ghost predicate Confined(g: Graph, c: nat, g': Graph, c': nat) {
    && c < |g| <= |g'| && c' < |g'|
    && g[c].term.Incomplete? && g'[c'].term.Incomplete?
    && (c' == c || |g| <= c')
    && (forall b: nat :: b < |g| && b != c ==> g'[b] == g[b])
    && g[c].insts <= g'[c].insts
    && (forall b: nat :: |g| <= b < |g'| && b != c' ==> !g'[b].term.Incomplete?)
    && (c' != c ==> !g'[c].term.Incomplete?)
  }

  lemma ConfinedGrows(g: Graph, c: nat, g': Graph, c': nat)
    requires Confined(g, c, g', c')
    ensures Grows(g, g')
  {
    forall b | 0 <= b < |g|
      ensures BlockGrows(g[b], g'[b])
    {
      assert b == c || g'[b] == g[b];
    }
  }

  lemma ConfinedTransitive(g: Graph, c: nat, g': Graph, c': nat, g'': Graph, c'': nat)
    requires Confined(g, c, g', c') && Confined(g', c', g'', c'')
    ensures Confined(g, c, g'', c'')
  {
  }

  function Appended(g: Graph, c: nat, tail: seq<Inst>): Graph
    requires c < |g|
  {
    g[c := Block(g[c].insts + tail, g[c].term)]
  }

  lemma AppendNothing(g: Graph, c: nat)
    requires c < |g|
    ensures Appended(g, c, []) == g
  {
    assert g[c].insts + [] == g[c].insts;
  }

  lemma AppendTwice(g: Graph, c: nat, a: seq<Inst>, b: seq<Inst>)
    requires c < |g|
    ensures Appended(Appended(g, c, a), c, b) == Appended(g, c, a + b)
  {
    assert g[c].insts + a + b == g[c].insts + (a + b);
  }

  lemma AppendedConfined(g: Graph, c: nat, tail: seq<Inst>)
    requires c < |g| && g[c].term.Incomplete?
    ensures Confined(g, c, Appended(g, c, tail), c)
    ensures HasCode(Appended(g, c, tail), Point(c, |g[c].insts|), tail)
  {
    var insts := g[c].insts + tail;
    assert insts[|g[c].insts|..|g[c].insts| + |tail|] == tail;
  }

  function Ended(g: Graph, c: nat, term: Term): Graph
    requires c < |g|
  {
    g[c := Block(g[c].insts, term)]
  }

  function EmptyBlock(): Block {
    Block([], Incomplete)
  }

  /** Block `c` extended by `tail`, two fresh blocks, and `c` ended by a branch between them. */
  function Forked(g: Graph, c: nat, tail: seq<Inst>, term: Term): Graph
    requires c < |g|
  {
    Ended(Appended(g, c, tail) + [EmptyBlock(), EmptyBlock()], c, term)
  }

  /** Block `c` extended by `tail` and ended by a jump to `exit`, where `code` follows. */
  function Joined(g: Graph, c: nat, tail: seq<Inst>, exit: nat, code: seq<Inst>): Graph
    requires c < |g| && exit < |g|
  {
    Appended(Ended(Appended(g, c, tail), c, Br(exit)), exit, code)
  }

  /** The shape that a short-circuit operator leaves behind. */
  lemma Diamond(g0: Graph, c0: nat, g1: Graph, c1: nat, tail: seq<Inst>, term: Term, g2: Graph, c2: nat, tail': seq<Inst>, code: seq<Inst>)
    requires Confined(g0, c0, g1, c1) && Confined(Forked(g1, c1, tail, term), |g1|, g2, c2) && !term.Incomplete?
    ensures |g1| + 1 < |g2| && g2[|g1| + 1] == EmptyBlock() && c2 != |g1| + 1
    ensures var exit, g := |g1| + 1, Joined(g2, c2, tail', |g1| + 1, code);
            && Confined(g0, c0, g, exit) && Grows(g1, g) && Grows(g2, g)
            && |g[exit].insts| == |code|
            && HasCode(g, Point(c1, |g1[c1].insts|), tail) && EndsBlock(g, Point(c1, |g1[c1].insts| + |tail|), term)
            && HasCode(g, Point(c2, |g2[c2].insts|), tail') && EndsBlock(g, Point(c2, |g2[c2].insts| + |tail'|), Br(exit))
            && HasCode(g, Point(exit, 0), code)
  {
    var exit, f := |g1| + 1, Forked(g1, c1, tail, term);
    assert f[exit] == EmptyBlock() && f[|g1|] == EmptyBlock();
    assert g2[exit] == EmptyBlock() && g2[c1] == f[c1];
    var g := Joined(g2, c2, tail', exit, code);
    assert g[c1] == f[c1] == Block(g1[c1].insts + tail, term);
    assert g[c2] == Block(g2[c2].insts + tail', Br(exit));
    assert [] + code == code;
    assert g[exit] == Block(code, Incomplete);
    assert Grows(g2, g);
    assert Grows(g1, g);
  }

  /**
   Three fresh blocks: block `c1` branches to some of them, code grows from `x` and is ended,
   then code grows from `y` and is ended, and `exit` is where translation goes on.
   */
  lemma TwoArms(g0: Graph, c0: nat, g1: Graph, c1: nat, term1: Term, x: nat, g2: Graph, c2: nat, term2: Term, y: nat, g3: Graph, c3: nat, term3: Term, exit: nat)
    requires Confined(g0, c0, g1, c1) && !term1.Incomplete? && !term2.Incomplete? && !term3.Incomplete?
    requires |g1| <= x < |g1| + 3 && |g1| <= y < |g1| + 3 && |g1| <= exit < |g1| + 3 && x != y && x != exit && y != exit
    requires Confined(WithThree(g1, c1, term1), x, g2, c2) && Confined(Ended(g2, c2, term2), y, g3, c3)
    ensures g2[y] == g2[exit] == EmptyBlock() && c2 != y && c2 != exit
    ensures g3[exit] == EmptyBlock() && c3 != exit
    ensures var g := Ended(g3, c3, term3);
            && Confined(g0, c0, g, exit) && Grows(g1, g) && Grows(g2, g) && Grows(g3, g) && g[exit] == EmptyBlock()
            && EndsBlock(g, Point(c1, |g1[c1].insts|), term1)
            && EndsBlock(g, Point(c2, |g2[c2].insts|), term2)
            && EndsBlock(g, Point(c3, |g3[c3].insts|), term3)
  {
    var f := WithThree(g1, c1, term1);
    assert f[|g1|] == f[|g1| + 1] == f[|g1| + 2] == EmptyBlock();
    EndArm(f, x, g2, c2, term2);
    var f2 := Ended(g2, c2, term2);
    EndArm(f2, y, g3, c3, term3);
    var g := Ended(g3, c3, term3);
    GrowsTransitive(f2, g3, g);
    GrowsTransitive(g2, f2, g);
    assert Grows(g1, f);
    ConfinedGrows(f, x, g2, c2);
    GrowsTransitive(g1, f, g2);
    GrowsTransitive(g1, g2, g);
    assert f2[c2] == g[c2];
    hide Confined, Grows;
    ForkThenFinished(g0, c0, g1, c1, term1, x, f2, y, g, exit);
  }

  /** Only block `x` and new blocks have changed, and all of these are complete. */
  ghost predicate Finished(f: Graph, x: nat, g: Graph) {
    && x < |f| <= |g|
    && f[x].insts <= g[x].insts && !g[x].term.Incomplete?
    && (forall b: nat :: b < |f| && b != x ==> g[b] == f[b])
    && (forall b: nat :: |f| <= b < |g| ==> !g[b].term.Incomplete?)
  }

  /** A block waiting for its code is left alone meanwhile. */
  lemma StaysPending(f: Graph, x: nat, g: Graph, c: nat, y: nat)
    requires Confined(f, x, g, c) && y < |f| && y != x
    ensures c != y && y < |g| && g[y] == f[y]
  {
  }

  lemma EndArm(f: Graph, x: nat, g: Graph, c: nat, term: Term)
    requires Confined(f, x, g, c) && !term.Incomplete?
    ensures var g' := Ended(g, c, term);
            Finished(f, x, g') && Grows(f, g) && Grows(g, g') && EndsBlock(g', Point(c, |g[c].insts|), term)
    ensures c == x || |f| <= c
    ensures forall b: nat :: b < |f| && b != x ==> g[b] == f[b]
  {
    ConfinedGrows(f, x, g, c);
    var g' := Ended(g, c, term);
    assert g'[c] == Block(g[c].insts, term);
    assert Grows(g, g');
  }

  lemma ForkThenFinished(g0: Graph, c0: nat, g1: Graph, c1: nat, term1: Term, x: nat, f2: Graph, y: nat, g: Graph, exit: nat)
    requires Confined(g0, c0, g1, c1) && !term1.Incomplete?
    requires |g1| <= x < |g1| + 3 && |g1| <= y < |g1| + 3 && |g1| <= exit < |g1| + 3 && x != y && x != exit && y != exit
    requires Finished(WithThree(g1, c1, term1), x, f2) && Finished(f2, y, g)
    ensures Confined(g0, c0, g, exit) && g[exit] == EmptyBlock() && EndsBlock(g, Point(c1, |g1[c1].insts|), term1)
  {
    var f := WithThree(g1, c1, term1);
    assert f[exit] == EmptyBlock() == f2[exit] == g[exit];
    assert f[c1] == Block(g1[c1].insts, term1) == f2[c1] == g[c1];
    forall b: nat | b < |g0| && b != c0
      ensures g[b] == g0[b]
    {
      assert g1[b] == g0[b];
      assert f[b] == g1[b] && f2[b] == f[b] && g[b] == f2[b];
    }
    forall b: nat | |g0| <= b < |g| && b != exit
      ensures !g[b].term.Incomplete?
    {
      if b < |g1| {
        assert b == c1 || !g1[b].term.Incomplete?;
        assert f2[b] == f[b] && g[b] == f2[b];
      } else if b < |f| {
        assert b == x || b == y;
      }
    }
  }

  /** Three fresh blocks, and block `c` ended. */
  function WithThree(g: Graph, c: nat, term: Term): Graph
    requires c < |g|
  {
    Ended(g + [EmptyBlock(), EmptyBlock(), EmptyBlock()], c, term)
  }

  // ---- single assignment ----

  /** What an instruction brings into being: a register, or the cell of a short-circuit operator. */
  datatype Made = Nothing | OfReg(r: nat) | OfCell(k: nat)

  function Makes(i: Inst): Made {
    match i
    case Alloca(TmpAddr(k)) => OfCell(k)
    case Alloca(_) => Nothing
    case Load(dst, _) => OfReg(dst)
    case Store(_, _) => Nothing
    case ZExt(dst, _) => OfReg(dst)
    case Bin(dst, _, _, _) => OfReg(dst)
  }

  function MadeAt(g: Graph, b: nat, k: nat): Made {
    if b < |g| && k < |g[b].insts| then Makes(g[b].insts[k]) else Nothing
  }

  predicate Known(m: Made, regs: nat, cells: nat) {
    match m
    case Nothing => true
    case OfReg(r) => r < regs
    case OfCell(k) => k < cells
  }

  /** Every register is assigned by one instruction, and every cell allocated by one; their numbers are below the bounds. */
  ghost predicate AssignedOnce(g: Graph, regs: nat, cells: nat) {
    && (forall b: nat, k: nat :: Known(MadeAt(g, b, k), regs, cells))
    && (forall b: nat, k: nat, b': nat, k': nat :: MadeAt(g, b, k) == MadeAt(g, b', k') != Nothing ==> b == b' && k == k')
  }

  /** An instruction that makes nothing, or what comes next. */
  predicate MakesNext(i: Inst, regs: nat, cells: nat, regs': nat, cells': nat) {
    match Makes(i)
    case Nothing => regs' == regs && cells' == cells
    case OfReg(r) => r == regs && regs' == regs + 1 && cells' == cells
    case OfCell(k) => k == cells && regs' == regs && cells' == cells + 1
  }

  lemma AppendedOnce(g: Graph, c: nat, i: Inst, regs: nat, cells: nat, regs': nat, cells': nat)
    requires c < |g| && AssignedOnce(g, regs, cells) && MakesNext(i, regs, cells, regs', cells')
    ensures AssignedOnce(Appended(g, c, [i]), regs', cells')
  {
    var g', n := Appended(g, c, [i]), |g[c].insts|;
    forall b: nat, k: nat
      ensures MadeAt(g', b, k) == if b == c && k == n then Makes(i) else MadeAt(g, b, k)
    {
    }
    assert forall b: nat, k: nat :: Known(MadeAt(g, b, k), regs, cells);
  }

  lemma BlockAddedOnce(g: Graph, regs: nat, cells: nat)
    requires AssignedOnce(g, regs, cells)
    ensures AssignedOnce(g + [EmptyBlock()], regs, cells)
  {
    var g' := g + [EmptyBlock()];
    forall b: nat, k: nat
      ensures MadeAt(g', b, k) == MadeAt(g, b, k)
    {
    }
  }

  lemma EndedOnce(g: Graph, c: nat, term: Term, regs: nat, cells: nat)
    requires c < |g| && AssignedOnce(g, regs, cells)
    ensures AssignedOnce(Ended(g, c, term), regs, cells)
  {
    var g' := Ended(g, c, term);
    forall b: nat, k: nat
      ensures MadeAt(g', b, k) == MadeAt(g, b, k)
    {
    }
  }
}
