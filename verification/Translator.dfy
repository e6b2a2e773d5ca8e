/**
 Translation of syntax trees into basic blocks. The translator holds the graph built
 so far and the block where code currently goes; every construct extends that block
 or leaves it complete and moves on to a fresh one.
 */
module Translator {
  import opened Options
  import opened Int32
  import MachineArithmetic
  import Ast
  import opened FlowGraph
  import opened GraphEdits
  import opened StatementProofs
  import opened TranslationProofs

  function OpcodeOf(op: Ast.BinaryOp): (r: Opcode)
    requires op != Ast.Assign && op != Ast.LAnd && op != Ast.LOr
    ensures forall a: int, b: int :: OpValue(r, a, b) == Ast.BinaryValue(op, a, b)
  {
    match op
    case Add => AddOp
    case Sub => SubOp
    case Mul => MulOp
    case Div => SDiv
    case Mod => SRem
    case And => AndOp
    case Or => OrOp
    case Xor => XorOp
    case Shl => ShlOp
    case Shr => AShr
    case EQ => CmpEQ
    case NE => CmpNE
    case LT => SLT
    case LE => SLE
    case GT => SGT
    case GE => SGE
  }

  /** Widening both operands and then applying the operator. */
  lemma BinaryTail(t1: seq<Inst>, t2: seq<Inst>, inst: Inst, l: Val, r: Val, r0: nat, boolean: bool)
    requires inst.Bin? && r0 <= inst.dst
    requires forall m: Machine :: CopiesBoth(t1, t2, l, r, inst.l, inst.r, r0, m)
    ensures forall m: Machine :: AppliesOp(t1 + t2 + [inst], inst.op, l, r, Reg(inst.dst, boolean), r0, m)
  {
    forall m: Machine
      ensures AppliesOp(t1 + t2 + [inst], inst.op, l, r, Reg(inst.dst, boolean), r0, m)
    {
      DoAllSum(t1 + t2, [inst], m);
      DoAllSum(t1, t2, m);
      var m2 := DoAll(t2, DoAll(t1, m));
      assert DoAll(t1 + t2 + [inst], m) == Do(inst, m2);
      hide OpValue;
      assert CopiesBoth(t1, t2, l, r, inst.l, inst.r, r0, m);
    }
  }

  /** Running `t1` and `t2` leaves the values of `l` and `r` in `l'` and `r'`. */
  ghost predicate CopiesBoth(t1: seq<Inst>, t2: seq<Inst>, l: Val, r: Val, l': Val, r': Val, r0: nat, m: Machine) {
    var m2 := DoAll(t2, DoAll(t1, m));
    m2.vars == m.vars && ValueOf(l', m2.regs) == ValueOf(l, m.regs) && ValueOf(r', m2.regs) == ValueOf(r, m.regs) && KeepsRegs(m.regs, m2.regs, r0)
  }

  lemma NothingCopies(v: Val, r0: nat)
    ensures forall m: Machine :: Copies([], v, v, r0, m) && DoAll([], m) == m
  {
  }

  lemma CopyBoth(t1: seq<Inst>, t2: seq<Inst>, l: Val, r: Val, l': Val, r': Val, r0: nat, r1: nat)
    requires r0 <= r1 && ValBelow(l', r1) && ValBelow(r, r0)
    requires forall m: Machine :: Copies(t1, l, l', r0, m)
    requires forall m: Machine :: Copies(t2, r, r', r1, m)
    ensures forall m: Machine :: CopiesBoth(t1, t2, l, r, l', r', r0, m)
  {
    forall m: Machine
      ensures CopiesBoth(t1, t2, l, r, l', r', r0, m)
    {
      assert Copies(t1, l, l', r0, m) && Copies(t2, r, r', r1, DoAll(t1, m));
    }
  }

  /** `tail` leaves the value of `v` in `w` and keeps what was there before. */
  ghost predicate Copies(tail: seq<Inst>, v: Val, w: Val, r0: nat, m: Machine) {
    var m' := DoAll(tail, m);
    m'.vars == m.vars && ValueOf(w, m'.regs) == ValueOf(v, m.regs) && KeepsRegs(m.regs, m'.regs, r0)
  }

  /** `tail` leaves the result of a machine operation in `v`. */
  ghost predicate AppliesOp(tail: seq<Inst>, op: Opcode, l: Val, r: Val, v: Val, r0: nat, m: Machine) {
    var m' := DoAll(tail, m);
    m'.vars == m.vars && ValueOf(v, m'.regs) == OpValue(op, ValueOf(l, m.regs), ValueOf(r, m.regs)) && KeepsRegs(m.regs, m'.regs, r0)
  }

  /** The instruction at the end has operands of one type: boolean ones are widened if and only if the types differ. */
  ghost predicate Unified(tail: seq<Inst>, op: Ast.BinaryOp, l: Val, r: Val) {
    tail != [] &&
    var last := tail[|tail| - 1];
    last.Bin? && if Unifies(op) && l.boolean != r.boolean then !last.l.boolean && !last.r.boolean else tail == [last] && last.l == l && last.r == r
  }

  /** `tail` leaves in `v` the one number that the operator asks for, where it asks for one. */
  ghost predicate ComputesResult(tail: seq<Inst>, op: Ast.BinaryOp, l: Val, r: Val, v: Val, m: Machine) {
    var a, b := ValueOf(l, m.regs), ValueOf(r, m.regs);
    MachineArithmetic.InRange(a) && MachineArithmetic.InRange(b) && MachineArithmetic.Defined(op, a, b) ==>
      MachineArithmetic.IsResult(op, a, b, ValueOf(v, DoAll(tail, m).regs))
  }

  lemma AppliedIsResult(tail: seq<Inst>, op: Ast.BinaryOp, l: Val, r: Val, v: Val, r0: nat)
    requires op != Ast.Assign && op != Ast.LAnd && op != Ast.LOr
    requires forall m: Machine :: AppliesOp(tail, OpcodeOf(op), l, r, v, r0, m)
    ensures forall m: Machine :: ComputesResult(tail, op, l, r, v, m)
  {
    forall m: Machine
      ensures ComputesResult(tail, op, l, r, v, m)
    {
      hide MachineArithmetic.IsResult, OpValue, Ast.BinaryValue;
      var a, b := ValueOf(l, m.regs), ValueOf(r, m.regs);
      assert AppliesOp(tail, OpcodeOf(op), l, r, v, r0, m);
      if MachineArithmetic.InRange(a) && MachineArithmetic.InRange(b) && MachineArithmetic.Defined(op, a, b) {
        MachineArithmetic.OperatorResult(op, a, b);
      }
    }
  }

  /** `tail` leaves the result of a unary operator in `v`. */
  ghost predicate AppliesUnary(tail: seq<Inst>, op: Ast.UnaryOp, a: Val, v: Val, r0: nat, m: Machine) {
    var m' := DoAll(tail, m);
    m'.vars == m.vars && ValueOf(v, m'.regs) == Ast.UnaryValue(op, ValueOf(a, m.regs)) && KeepsRegs(m.regs, m'.regs, r0)
  }

  lemma UnaryMaps(e: Ast.Expr, op: Ast.UnaryOp, a: Ast.Expr, x: Val, tail: seq<Inst>, v: Val, r0: nat)
    requires e == Ast.Unary(op, a) && Ast.WellFormedExpr(e)
    requires forall m: Machine :: AppliesUnary(tail, op, x, v, r0, m)
    requires v.boolean ==> op.Not? || (op.Pos? && x.boolean)
    ensures forall s: Ast.Store ::
              TailMaps(tail, r0, x, v, Ast.Eval(a, s).value, Ast.Eval(e, s).value, Ast.Eval(a, s).store, Ast.Eval(e, s).store)
  {
    forall s: Ast.Store
      ensures TailMaps(tail, r0, x, v, Ast.Eval(a, s).value, Ast.Eval(e, s).value, Ast.Eval(a, s).store, Ast.Eval(e, s).store)
    {
      var o := Ast.Eval(a, s);
      assert Ast.Eval(e, s) == Ast.Outcome(Ast.UnaryValue(op, o.value), o.store);
      hide DoAll, Ast.Eval, KeepsRegs, BitXor;
      forall m: Machine | m.vars == o.store && ValueOf(x, m.regs) == o.value && (x.boolean ==> o.value == 0 || o.value == 1)
        ensures Delivers(m, DoAll(tail, m), r0, v, Ast.UnaryValue(op, o.value), o.store)
      {
        assert AppliesUnary(tail, op, x, v, r0, m);
      }
    }
  }

  /** `!` compares with 0, and `~` flips every bit. */
  lemma UnaryByOp(tail: seq<Inst>, code: Opcode, op: Ast.UnaryOp, a: Val, l: Val, r: Val, v: Val, r0: nat)
    requires forall m: Machine :: AppliesOp(tail, code, l, r, v, r0, m)
    requires l == a && ((code == CmpEQ && op.Not? && r == Imm(0, false)) || (code == XorOp && op.Inv? && r == Imm(-1, false)))
    ensures forall m: Machine :: AppliesUnary(tail, op, a, v, r0, m)
  {
    hide DoAll, BitXor;
    forall m: Machine
      ensures AppliesUnary(tail, op, a, v, r0, m)
    {
      assert AppliesOp(tail, code, l, r, v, r0, m);
    }
  }

  /** `-` widens its operand and subtracts it from 0. */
  lemma WidenThenNegate(t1: seq<Inst>, t2: seq<Inst>, a: Val, full: Val, v: Val, r0: nat, r1: nat)
    requires r0 <= r1
    requires forall m: Machine :: Copies(t1, a, full, r0, m)
    requires forall m: Machine :: AppliesOp(t2, SubOp, Imm(0, false), full, v, r1, m)
    ensures forall m: Machine :: AppliesUnary(t1 + t2, Ast.Neg, a, v, r0, m)
  {
    forall m: Machine
      ensures AppliesUnary(t1 + t2, Ast.Neg, a, v, r0, m)
    {
      DoAllSum(t1, t2, m);
      hide DoAll;
      assert Copies(t1, a, full, r0, m) && AppliesOp(t2, SubOp, Imm(0, false), full, v, r1, DoAll(t1, m));
    }
  }

  predicate IsComparison(op: Ast.BinaryOp) {
    op.LT? || op.LE? || op.GT? || op.GE? || op.EQ? || op.NE?
  }

  /** Operators whose operands are brought to one integer type first. */
  predicate Unifies(op: Ast.BinaryOp) {
    IsComparison(op) || op.Add? || op.Sub? || op.Mul? || op.Div?
  }

  datatype LoopDescription = LoopDescription(branchCond: nat, branchLoop: nat, branchExit: nat)

  class Builder {
    var blocks: Graph
    var currentBlock: nat
    var nextReg: nat
    var nextTmp: nat
    var addressOfPrevExpr: Option<Addr>
    var loopTable: map<nat, LoopDescription>

    ghost predicate Valid()
      reads this
    {
      currentBlock < |blocks| && blocks[currentBlock].term.Incomplete?
    }

    ghost function Here(): Point
      requires Valid()
      reads this
    {
      Point(currentBlock, |blocks[currentBlock].insts|)
    }

    method Emit(i: Inst)
      requires Valid()
      modifies this`blocks
      ensures blocks == Appended(old(blocks), currentBlock, [i])
      ensures forall regs, cells :: AssignedOnce(old(blocks), regs, cells) && MakesNext(i, regs, cells, nextReg, nextTmp) ==> AssignedOnce(blocks, nextReg, nextTmp)
    {
      hide AssignedOnce;
      forall regs, cells | AssignedOnce(blocks, regs, cells) && MakesNext(i, regs, cells, nextReg, nextTmp)
        ensures AssignedOnce(Appended(blocks, currentBlock, [i]), nextReg, nextTmp)
      {
        AppendedOnce(blocks, currentBlock, i, regs, cells, nextReg, nextTmp);
      }
      blocks := blocks[currentBlock := Block(blocks[currentBlock].insts + [i], blocks[currentBlock].term)];
    }

    method FreshReg() returns (r: nat)
      modifies this`nextReg
      ensures r == old(nextReg) && nextReg == r + 1
    {
      r := nextReg;
      nextReg := nextReg + 1;
    }

    /** Bring a boolean operand to a full integer. */
    method Widen(v: Val) returns (w: Val, ghost tail: seq<Inst>)
      requires Valid() && ValBelow(v, nextReg)
      modifies this`blocks, this`nextReg
      ensures blocks == Appended(old(blocks), currentBlock, tail) && old(nextReg) <= nextReg && ValBelow(w, nextReg) && !w.boolean
      ensures forall m: Machine :: Copies(tail, v, w, old(nextReg), m)
      ensures !v.boolean ==> w == v && tail == []
      ensures v.boolean && v.Imm? ==> w == Imm(v.n, false) && tail == []
      ensures AssignedOnce(old(blocks), old(nextReg), old(nextTmp)) ==> AssignedOnce(blocks, nextReg, nextTmp)
    {
      hide AssignedOnce;
      if !v.boolean {
        w, tail := v, [];
        AppendNothing(blocks, currentBlock);
      } else if v.Imm? {
        w, tail := Imm(v.n, false), [];
        AppendNothing(blocks, currentBlock);
      } else {
        var r := FreshReg();
        Emit(ZExt(r, v));
        w, tail := Reg(r, false), [ZExt(r, v)];
        assert forall m: Machine :: DoAll(tail, m) == Do(ZExt(r, v), m);
      }
    }

    /** Where one operand is boolean and the other is not, both become full integers. */
    method UnifyOperands(op: Ast.BinaryOp, l: Val, r: Val) returns (lhs: Val, rhs: Val, ghost t1: seq<Inst>, ghost t2: seq<Inst>)
      requires Valid() && ValBelow(l, nextReg) && ValBelow(r, nextReg)
      modifies this`blocks, this`nextReg
      ensures blocks == Appended(old(blocks), currentBlock, t1 + t2) && old(nextReg) <= nextReg && ValBelow(lhs, nextReg) && ValBelow(rhs, nextReg)
      ensures forall m: Machine :: CopiesBoth(t1, t2, l, r, lhs, rhs, old(nextReg), m)
      ensures if Unifies(op) && l.boolean != r.boolean then !lhs.boolean && !rhs.boolean else lhs == l && rhs == r && t1 == t2 == []
      ensures AssignedOnce(old(blocks), old(nextReg), old(nextTmp)) ==> AssignedOnce(blocks, nextReg, nextTmp)
    {
      hide AssignedOnce;
      lhs, rhs, t1, t2 := l, r, [], [];
      ghost var g := blocks;
      if Unifies(op) && l.boolean != r.boolean {
        lhs, t1 := Widen(l);
        ghost var r1 := nextReg;
        rhs, t2 := Widen(r);
        CopyBoth(t1, t2, l, r, lhs, rhs, old(nextReg), r1);
        AppendTwice(g, currentBlock, t1, t2);
      } else {
        AppendNothing(blocks, currentBlock);
        assert t1 + t2 == [];
        NothingCopies(l, nextReg);
        NothingCopies(r, nextReg);
        assert forall m: Machine :: CopiesBoth(t1, t2, l, r, lhs, rhs, nextReg, m);
      }
    }

    /** Compute a binary operator on two operands at hand. */
    method EmitBinary(op: Ast.BinaryOp, l: Val, r: Val) returns (v: Val, ghost tail: seq<Inst>)
      requires Valid() && ValBelow(l, nextReg) && ValBelow(r, nextReg) && op != Ast.Assign && op != Ast.LAnd && op != Ast.LOr
      modifies this`blocks, this`nextReg
      ensures blocks == Appended(old(blocks), currentBlock, tail) && old(nextReg) <= nextReg && ValBelow(v, nextReg)
      ensures v.boolean <==> IsComparison(op)
      ensures forall m: Machine :: AppliesOp(tail, OpcodeOf(op), l, r, v, old(nextReg), m)
      ensures forall m: Machine :: ComputesResult(tail, op, l, r, v, m)
      ensures Unified(tail, op, l, r)
      ensures AssignedOnce(old(blocks), old(nextReg), old(nextTmp)) ==> AssignedOnce(blocks, nextReg, nextTmp)
    {
      hide AssignedOnce, AppliesOp, ComputesResult, CopiesBoth, OpcodeOf;
      ghost var g := blocks;
      var lhs, rhs;
      ghost var t1, t2;
      lhs, rhs, t1, t2 := UnifyOperands(op, l, r);
      var dst := FreshReg();
      var inst := Bin(dst, OpcodeOf(op), lhs, rhs);
      Emit(inst);
      v := Reg(dst, IsComparison(op));
      tail := t1 + t2 + [inst];
      AppendTwice(g, currentBlock, t1 + t2, [inst]);
      BinaryTail(t1, t2, inst, l, r, old(nextReg), IsComparison(op));
      AppliedIsResult(tail, op, l, r, v, old(nextReg));
    }

    /** The minimum boolean expression: an operand that is true exactly when `v` is not zero. */
    method ToBoolean(v: Val) returns (w: Val, ghost tail: seq<Inst>)
      requires Valid() && ValBelow(v, nextReg)
      modifies this`blocks, this`nextReg
      ensures blocks == Appended(old(blocks), currentBlock, tail) && old(nextReg) <= nextReg && ValBelow(w, nextReg) && w.boolean
      ensures forall m: Machine :: Tests(tail, v, w, old(nextReg), m)
      ensures v.boolean ==> w == v
      ensures v.boolean || v.Imm? ==> tail == []
      ensures AssignedOnce(old(blocks), old(nextReg), old(nextTmp)) ==> AssignedOnce(blocks, nextReg, nextTmp)
    {
      hide AssignedOnce;
      if v.boolean {
        w, tail := v, [];
        AppendNothing(blocks, currentBlock);
      } else if v.Imm? {
        w, tail := Imm(Truth(v.n != 0), true), [];
        AppendNothing(blocks, currentBlock);
      } else {
        var r := FreshReg();
        var inst := Bin(r, CmpNE, v, Imm(0, false));
        Emit(inst);
        w, tail := Reg(r, true), [inst];
        assert forall m: Machine :: DoAll(tail, m) == Do(inst, m);
      }
    }

    // ---- expressions ----

    /** `e` has been translated from the end of block `c` of `g` on; its value is operand `v`. */
    ghost predicate Translated(e: Ast.Expr, g: Graph, c: nat, r0: nat, v: Val)
      reads this
    {
      && Valid()
      && Ast.WellFormedExpr(e)
      && Confined(g, c, blocks, currentBlock)
      && r0 <= nextReg
      && ValBelow(v, nextReg)
      && Evaluates(blocks, e, Point(c, |g[c].insts|), r0, Here(), v)
      && addressOfPrevExpr == if Ast.IsLValue(e) then Some(VarAddr(Ast.Target(e))) else None
    }

    method TranslateExpr(e: Ast.Expr) returns (v: Val)
      requires Valid() && Ast.WellFormedExpr(e)
      modifies this`blocks, this`currentBlock, this`nextReg, this`nextTmp, this`addressOfPrevExpr
      ensures Translated(e, old(blocks), old(currentBlock), old(nextReg), v)
      ensures AssignedOnce(old(blocks), old(nextReg), old(nextTmp)) ==> AssignedOnce(blocks, nextReg, nextTmp)
      decreases e, 1
    {
      hide AssignedOnce;
      match e
      case Num(n) =>
        addressOfPrevExpr := None;
        v := Imm(n, false);
        EvaluatesInPlace(blocks, currentBlock, [], e, nextReg, v);
        AppendNothing(blocks, currentBlock);
      case Var(x) =>
        addressOfPrevExpr := Some(VarAddr(x));
        v := EmitLoad(VarAddr(x), false);
        EvaluatesInPlace(old(blocks), currentBlock, [Load(v.r, VarAddr(x))], e, old(nextReg), v);
      case Unary(op, a) =>
        v := TranslateUnary(e, op, a);
      case Binary(op, lhs, rhs) =>
        if op == Ast.LAnd || op == Ast.LOr {
          v := TranslateShortCircuit(e, op, lhs, rhs);
        } else if op == Ast.Assign {
          v := TranslateAssign(e, lhs, rhs);
        } else {
          v := TranslateBinary(e, op, lhs, rhs);
        }
      case Paren(inner) =>
        v := TranslateExpr(inner);
        SameEvaluation(blocks, inner, e, Point(old(currentBlock), |old(blocks)[old(currentBlock)].insts|), old(nextReg), Here(), v);
      case Comma(es) =>
        v := TranslateComma(e, es);
    }

    method EmitLoad(a: Addr, boolean: bool) returns (v: Val)
      requires Valid()
      modifies this`blocks, this`nextReg
      ensures nextReg == old(nextReg) + 1 && v == Reg(old(nextReg), boolean)
      ensures blocks == Appended(old(blocks), currentBlock, [Load(v.r, a)])
      ensures AssignedOnce(old(blocks), old(nextReg), old(nextTmp)) ==> AssignedOnce(blocks, nextReg, nextTmp)
    {
      hide AssignedOnce;
      var r := FreshReg();
      Emit(Load(r, a));
      v := Reg(r, boolean);
    }

    method TranslateUnary(e: Ast.Expr, op: Ast.UnaryOp, a: Ast.Expr) returns (v: Val)
      requires Valid() && e == Ast.Unary(op, a) && Ast.WellFormedExpr(e)
      modifies this`blocks, this`currentBlock, this`nextReg, this`nextTmp, this`addressOfPrevExpr
      ensures Translated(e, old(blocks), old(currentBlock), old(nextReg), v)
      ensures AssignedOnce(old(blocks), old(nextReg), old(nextTmp)) ==> AssignedOnce(blocks, nextReg, nextTmp)
      decreases e, 0
    {
      hide AssignedOnce;
      var operand := TranslateExpr(a);
      addressOfPrevExpr := None;
      ghost var g1, c1, r1 := blocks, currentBlock, nextReg;
      ghost var tail;
      v, tail := EmitUnary(op, operand);
      UnaryMaps(e, op, a, operand, tail, v, r1);
      ExtendOperand(e, a, old(blocks), old(currentBlock), old(nextReg), g1, c1, r1, operand, tail, v);
    }

    method EmitUnary(op: Ast.UnaryOp, operand: Val) returns (v: Val, ghost tail: seq<Inst>)
      requires Valid() && ValBelow(operand, nextReg)
      modifies this`blocks, this`nextReg
      ensures blocks == Appended(old(blocks), currentBlock, tail) && old(nextReg) <= nextReg && ValBelow(v, nextReg)
      ensures v.boolean <==> op.Not? || (op.Pos? && operand.boolean)
      ensures forall m: Machine :: AppliesUnary(tail, op, operand, v, old(nextReg), m)
      ensures AssignedOnce(old(blocks), old(nextReg), old(nextTmp)) ==> AssignedOnce(blocks, nextReg, nextTmp)
    {
      hide AssignedOnce;
      match op {
        case Pos =>
          v, tail := operand, [];
          AppendNothing(blocks, currentBlock);
        case Inv =>
          v, tail := EmitOp(XorOp, operand, Imm(-1, false), false);
          UnaryByOp(tail, XorOp, op, operand, operand, Imm(-1, false), v, old(nextReg));
        case Not =>
          v, tail := EmitOp(CmpEQ, operand, Imm(0, false), true);
          UnaryByOp(tail, CmpEQ, op, operand, operand, Imm(0, false), v, old(nextReg));
        case Neg =>
          ghost var g, t1, t2 := blocks, [], [];
          var full;
          full, t1 := Widen(operand);
          ghost var r1 := nextReg;
          v, t2 := EmitOp(SubOp, Imm(0, false), full, false);
          tail := t1 + t2;
          AppendTwice(g, currentBlock, t1, t2);
          WidenThenNegate(t1, t2, operand, full, v, old(nextReg), r1);
      }
    }

    method EmitOp(op: Opcode, l: Val, r: Val, boolean: bool) returns (v: Val, ghost tail: seq<Inst>)
      requires Valid() && ValBelow(l, nextReg) && ValBelow(r, nextReg)
      modifies this`blocks, this`nextReg
      ensures blocks == Appended(old(blocks), currentBlock, tail) && old(nextReg) <= nextReg && ValBelow(v, nextReg) && v.boolean == boolean
      ensures forall m: Machine :: AppliesOp(tail, op, l, r, v, old(nextReg), m)
      ensures AssignedOnce(old(blocks), old(nextReg), old(nextTmp)) ==> AssignedOnce(blocks, nextReg, nextTmp)
    {
      hide AssignedOnce;
      var dst := FreshReg();
      var inst := Bin(dst, op, l, r);
      Emit(inst);
      v, tail := Reg(dst, boolean), [inst];
      assert forall m: Machine :: DoAll(tail, m) == Do(inst, m);
    }

    method TranslateBinary(e: Ast.Expr, op: Ast.BinaryOp, lhs: Ast.Expr, rhs: Ast.Expr) returns (v: Val)
      requires Valid() && e == Ast.Binary(op, lhs, rhs) && Ast.WellFormedExpr(e) && op != Ast.Assign && op != Ast.LAnd && op != Ast.LOr
      modifies this`blocks, this`currentBlock, this`nextReg, this`nextTmp, this`addressOfPrevExpr
      ensures Translated(e, old(blocks), old(currentBlock), old(nextReg), v)
      ensures AssignedOnce(old(blocks), old(nextReg), old(nextTmp)) ==> AssignedOnce(blocks, nextReg, nextTmp)
      decreases e, 0
    {
      hide AssignedOnce, Evaluates, AppliesOp, CombinesInto;
      var l := TranslateExpr(lhs);
      ghost var g1, c1, r1 := blocks, currentBlock, nextReg;
      var r := TranslateExpr(rhs);
      ghost var g2, c2, r2 := blocks, currentBlock, nextReg;
      ghost var tail;
      v, tail := EmitBinary(op, l, r);
      addressOfPrevExpr := None;
      OperatorCombines(e, op, lhs, rhs, tail, l, r, v, r2);
      CombineOperands(e, lhs, rhs, old(blocks), old(currentBlock), old(nextReg), g1, c1, r1, l, g2, c2, r2, r, tail, v);
    }

    method TranslateAssign(e: Ast.Expr, lhs: Ast.Expr, rhs: Ast.Expr) returns (v: Val)
      requires Valid() && e == Ast.Binary(Ast.Assign, lhs, rhs) && Ast.WellFormedExpr(e)
      modifies this`blocks, this`currentBlock, this`nextReg, this`nextTmp, this`addressOfPrevExpr
      ensures Translated(e, old(blocks), old(currentBlock), old(nextReg), v)
      ensures AssignedOnce(old(blocks), old(nextReg), old(nextTmp)) ==> AssignedOnce(blocks, nextReg, nextTmp)
      decreases e, 0
    {
      hide AssignedOnce, Evaluates;
      var l := TranslateExpr(lhs);
      var addressOfLhs := addressOfPrevExpr.value;
      ghost var g1, c1, r1 := blocks, currentBlock, nextReg;
      var r := TranslateExpr(rhs);
      ghost var g2, c2, r2 := blocks, currentBlock, nextReg;
      Emit(Store(addressOfLhs, r));
      v := EmitLoad(addressOfLhs, false);
      addressOfPrevExpr := Some(addressOfLhs);
      ghost var tail := [Store(addressOfLhs, r)] + [Load(v.r, addressOfLhs)];
      AppendTwice(g2, c2, [Store(addressOfLhs, r)], [Load(v.r, addressOfLhs)]);
      StoreThenLoad(addressOfLhs, r, v.r);
      CombineOperands(e, lhs, rhs, old(blocks), old(currentBlock), old(nextReg), g1, c1, r1, l, g2, c2, r2, r, tail, v);
    }

    // ---- blocks ----

    /** A fresh block, empty and incomplete. */
    method NewBlock() returns (b: nat)
      modifies this`blocks
      ensures b == old(|blocks|) && blocks == old(blocks) + [Block([], Incomplete)]
      ensures AssignedOnce(old(blocks), nextReg, nextTmp) ==> AssignedOnce(blocks, nextReg, nextTmp)
    {
      hide AssignedOnce;
      if AssignedOnce(blocks, nextReg, nextTmp) {
        BlockAddedOnce(blocks, nextReg, nextTmp);
      }
      b := |blocks|;
      blocks := blocks + [Block([], Incomplete)];
    }

    /** End block `b`. */
    method Reset(b: nat, term: Term)
      requires b < |blocks|
      modifies this`blocks
      ensures blocks == old(blocks)[b := Block(old(blocks)[b].insts, term)]
      ensures AssignedOnce(old(blocks), nextReg, nextTmp) ==> AssignedOnce(blocks, nextReg, nextTmp)
    {
      hide AssignedOnce;
      if AssignedOnce(blocks, nextReg, nextTmp) {
        EndedOnce(blocks, b, term, nextReg, nextTmp);
      }
      blocks := blocks[b := Block(blocks[b].insts, term)];
    }

    /** Reduce `v` to a boolean and keep it in cell `k`. */
    method StoreTruth(v: Val, k: nat, ghost g: Graph, ghost before: seq<Inst>) returns (w: Val, ghost tail: seq<Inst>)
      requires Valid() && ValBelow(v, nextReg) && forall m: Machine :: DoAll(before, m) == m
      requires currentBlock < |g| && blocks == Appended(g, currentBlock, before)
      modifies this`blocks, this`nextReg
      ensures blocks == Appended(g, currentBlock, tail)
      ensures old(nextReg) <= nextReg && ValBelow(w, nextReg)
      ensures forall m: Machine :: TestsInto(tail, old(nextReg), v, w, k, m)
      ensures AssignedOnce(old(blocks), old(nextReg), old(nextTmp)) ==> AssignedOnce(blocks, nextReg, nextTmp)
    {
      hide AssignedOnce;
      ghost var t;
      w, t := ToBoolean(v);
      Emit(Store(TmpAddr(k), w));
      AppendTwice(g, currentBlock, before, t);
      AppendTwice(g, currentBlock, before + t, [Store(TmpAddr(k), w)]);
      TestThenStore(before, t, k, v, w, old(nextReg));
      tail := before + t + [Store(TmpAddr(k), w)];
    }

    /** Keep the truth value of the left operand in a fresh cell, and branch on it. */
    method OpenDiamond(op: Ast.BinaryOp, l: Val) returns (k: nat, w: Val, nextBlock: nat, exitBlock: nat, ghost tail: seq<Inst>)
      requires Valid() && ValBelow(l, nextReg) && (op == Ast.LAnd || op == Ast.LOr)
      modifies this`blocks, this`nextReg, this`nextTmp
      ensures nextBlock == old(|blocks|) && exitBlock == nextBlock + 1 && old(nextReg) <= nextReg
      ensures k == old(nextTmp) && nextTmp == k + 1
      ensures blocks == Forked(old(blocks), currentBlock, tail, BranchesFor(op, w, nextBlock, exitBlock))
      ensures exitBlock < |blocks| && blocks[nextBlock] == blocks[exitBlock] == EmptyBlock()
      ensures forall m: Machine :: TestsInto(tail, old(nextReg), l, w, k, m)
      ensures AssignedOnce(old(blocks), old(nextReg), old(nextTmp)) ==> AssignedOnce(blocks, nextReg, nextTmp)
    {
      hide AssignedOnce, TestsInto, DoAll;
      ghost var g := blocks;
      k := nextTmp;
      nextTmp := nextTmp + 1;
      Emit(Alloca(TmpAddr(k)));
      AllocaDoesNothing(TmpAddr(k));
      w, tail := StoreTruth(l, k, g, [Alloca(TmpAddr(k))]);
      nextBlock := NewBlock();
      exitBlock := NewBlock();
      if op == Ast.LAnd {
        Reset(currentBlock, CondBr(w, nextBlock, exitBlock));
      } else {
        Reset(currentBlock, CondBr(w, exitBlock, nextBlock));
      }
    }

    method TranslateShortCircuit(e: Ast.Expr, op: Ast.BinaryOp, lhs: Ast.Expr, rhs: Ast.Expr) returns (v: Val)
      requires Valid() && e == Ast.Binary(op, lhs, rhs) && Ast.WellFormedExpr(e) && (op == Ast.LAnd || op == Ast.LOr)
      modifies this`blocks, this`currentBlock, this`nextReg, this`nextTmp, this`addressOfPrevExpr
      ensures Translated(e, old(blocks), old(currentBlock), old(nextReg), v)
      ensures AssignedOnce(old(blocks), old(nextReg), old(nextTmp)) ==> AssignedOnce(blocks, nextReg, nextTmp)
      decreases e, 0
    {
      hide AssignedOnce, Confined, Evaluates, TestsInto, Ast.Eval, DoAll, Ast.IsLValue, Ast.WellFormedExpr, Tests, Ast.Target, Forked, Joined, Appended, Ended, BranchesFor;
      PartsWellFormed(e, op, lhs, rhs);
      var l := TranslateExpr(lhs);
      ghost var g1, c1, r1 := blocks, currentBlock, nextReg;
      ghost var tail;
      var k, w, nextBlock, exitBlock;
      k, w, nextBlock, exitBlock, tail := OpenDiamond(op, l);
      ghost var r2 := nextReg;
      currentBlock := nextBlock;
      var r := TranslateExpr(rhs);
      ghost var g2, c2, r3 := blocks, currentBlock, nextReg;
      StaysPending(Forked(g1, c1, tail, BranchesFor(op, w, nextBlock, exitBlock)), nextBlock, g2, c2, exitBlock);
      ghost var tail', w';
      v, tail', w' := CloseDiamond(r, k, exitBlock);
      addressOfPrevExpr := None;
      ShortCircuitTranslated(e, op, lhs, rhs, old(blocks), old(currentBlock), old(nextReg), g1, c1, r1, l, tail, w,
                             g2, c2, r2, r3, r, tail', w', k, v.r);
    }

    /** Keep the truth value of the right operand in the cell, and read the cell where both ways meet. */
    method CloseDiamond(r: Val, k: nat, exitBlock: nat) returns (v: Val, ghost tail: seq<Inst>, ghost w: Val)
      requires Valid() && ValBelow(r, nextReg) && exitBlock < |blocks| && blocks[exitBlock] == EmptyBlock() && exitBlock != currentBlock
      modifies this`blocks, this`currentBlock, this`nextReg
      ensures v.Reg? && v.boolean && old(nextReg) <= v.r < nextReg && currentBlock == exitBlock
      ensures blocks == Joined(old(blocks), old(currentBlock), tail, exitBlock, [Load(v.r, TmpAddr(k))])
      ensures Valid()
      ensures forall m: Machine :: TestsInto(tail, old(nextReg), r, w, k, m)
      ensures AssignedOnce(old(blocks), old(nextReg), old(nextTmp)) ==> AssignedOnce(blocks, nextReg, nextTmp)
    {
      hide AssignedOnce, TestsInto, DoAll;
      AppendNothing(blocks, currentBlock);
      NothingDone();
      var boolean;
      boolean, tail := StoreTruth(r, k, blocks, []);
      w := boolean;
      Reset(currentBlock, Br(exitBlock));
      currentBlock := exitBlock;
      v := EmitLoad(TmpAddr(k), true);
    }

    method TranslateComma(e: Ast.Expr, es: seq<Ast.Expr>) returns (v: Val)
      requires Valid() && e == Ast.Comma(es) && Ast.WellFormedExpr(e)
      modifies this`blocks, this`currentBlock, this`nextReg, this`nextTmp, this`addressOfPrevExpr
      ensures Translated(e, old(blocks), old(currentBlock), old(nextReg), v)
      ensures AssignedOnce(old(blocks), old(nextReg), old(nextTmp)) ==> AssignedOnce(blocks, nextReg, nextTmp)
      decreases e, 0
    {
      hide AssignedOnce;
      v := TranslateExpr(es[0]);
      ghost var p := Point(old(currentBlock), |old(blocks)[old(currentBlock)].insts|);
      SameEvaluation(blocks, es[0], Ast.Comma(es[..1]), p, old(nextReg), Here(), v);
      var i := 1;
      while i < |es|
        invariant 1 <= i <= |es|
        invariant Translated(Ast.Comma(es[..i]), old(blocks), old(currentBlock), old(nextReg), v)
        invariant AssignedOnce(old(blocks), old(nextReg), old(nextTmp)) ==> AssignedOnce(blocks, nextReg, nextTmp)
      {
        ghost var g1, c1, r1, q, v1 := blocks, currentBlock, nextReg, Here(), v;
        v := TranslateExpr(es[i]);
        ConfinedGrows(g1, c1, blocks, currentBlock);
        ConfinedTransitive(old(blocks), old(currentBlock), g1, c1, blocks, currentBlock);
        EvaluatesNext(g1, blocks, es[..i], es[i], p, old(nextReg), q, v1, r1, Here(), v);
        assert es[..i + 1] == es[..i] + [es[i]];
        i := i + 1;
      }
      assert es[..i] == es;
    }

    // ---- statements ----

    /** `s` has been translated from the end of block `c` of `g` on. */
    ghost predicate Implemented(s: Ast.Stmt, loop: Ast.LoopKind, g: Graph, c: nat, brk: nat, cont: nat)
      reads this
    {
      && Valid()
      && Ast.WellFormed(s, loop)
      && Confined(g, c, blocks, currentBlock)
      && Implements(blocks, s, loop, Point(c, |g[c].insts|), Here(), brk, cont)
    }

    method TranslateStmt(s: Ast.Stmt, ghost loop: Ast.LoopKind, ghost brk: nat, ghost cont: nat)
      requires Valid() && Ast.WellFormed(s, loop) && Encloses(loop, s) && NotesLoop(loopTable, loop, brk, cont)
      modifies this
      ensures Implemented(s, loop, old(blocks), old(currentBlock), brk, cont)
      ensures TableKept(old(loopTable), loopTable, Ast.LoopIds(s))
      ensures AssignedOnce(old(blocks), old(nextReg), old(nextTmp)) ==> AssignedOnce(blocks, nextReg, nextTmp)
      decreases s, 1
    {
      hide AssignedOnce;
      match s
      case Null =>
        NothingDone();
        AppendNothing(blocks, currentBlock);
        AppendedConfined(blocks, currentBlock, []);
        IdleImplements(blocks, s, loop, Here(), Here(), [], brk, cont);
      case Decl(x, init) =>
        TranslateDecl(s, loop, brk, cont);
      case ExprStmt(e) =>
        ghost var p := Here();
        var v := TranslateExpr(e);
        ExprStmtImplements(blocks, e, loop, p, old(nextReg), Here(), v, brk, cont);
      case Compound(ss) =>
        TranslateCompound(s, loop, brk, cont);
      case If(_, _, _) =>
        TranslateIf(s, loop, brk, cont);
      case Do(_, _, _) =>
        TranslateDo(s, loop, brk, cont);
      case While(_, _, _) =>
        TranslateWhile(s, loop, brk, cont);
      case For(_, _, _, _, _) =>
        TranslateFor(s, loop, brk, cont);
      case Break(parent) =>
        TranslateLeave(s, loop, loopTable[parent].branchExit, brk, cont);
      case Continue(parent) =>
        TranslateLeave(s, loop, loopTable[parent].branchCond, brk, cont);
      case Return(_) =>
        TranslateReturn(s, loop, brk, cont);
    }

    method TranslateDecl(s: Ast.Stmt, ghost loop: Ast.LoopKind, ghost brk: nat, ghost cont: nat)
      requires Valid() && s.Decl? && Ast.WellFormed(s, loop)
      modifies this`blocks, this`currentBlock, this`nextReg, this`nextTmp, this`addressOfPrevExpr
      ensures Implemented(s, loop, old(blocks), old(currentBlock), brk, cont)
      ensures addressOfPrevExpr == None
      ensures AssignedOnce(old(blocks), old(nextReg), old(nextTmp)) ==> AssignedOnce(blocks, nextReg, nextTmp)
      decreases s, 0
    {
      hide AssignedOnce;
      var address := VarAddr(s.x);
      ghost var g0, c0, p := blocks, currentBlock, Here();
      Emit(Alloca(address));
      AppendedConfined(g0, c0, [Alloca(address)]);
      if s.init.Some? {
        ghost var g1, p1, r1 := blocks, Here(), nextReg;
        var value := TranslateExpr(s.init.value);
        ghost var g2, c2, q := blocks, currentBlock, Here();
        Emit(Store(address, value));
        DeclBuilt(s, loop, g0, c0, g2, c2, r1, value, brk, cont);
      } else {
        AllocaDoesNothing(address);
        IdleImplements(blocks, s, loop, p, Here(), [Alloca(address)], brk, cont);
      }
      addressOfPrevExpr := None;
    }

    method TranslateCompound(s: Ast.Stmt, ghost loop: Ast.LoopKind, ghost brk: nat, ghost cont: nat)
      requires Valid() && s.Compound? && Ast.WellFormed(s, loop) && Encloses(loop, s) && NotesLoop(loopTable, loop, brk, cont)
      modifies this
      ensures Implemented(s, loop, old(blocks), old(currentBlock), brk, cont)
      ensures TableKept(old(loopTable), loopTable, Ast.LoopIds(s))
      ensures AssignedOnce(old(blocks), old(nextReg), old(nextTmp)) ==> AssignedOnce(blocks, nextReg, nextTmp)
      decreases s, 0
    {
      hide AssignedOnce, Ast.Exec, Implements, Confined, HasCode;
      var ss := s.ss;
      ghost var g0, c0, p := blocks, currentBlock, Here();
      EmptyCompound(g0, c0, loop, brk, cont);
      var i := 0;
      while i < |ss|
        invariant 0 <= i <= |ss|
        invariant Ast.WellFormed(Ast.Compound(ss[..i]), loop)
        invariant Implemented(Ast.Compound(ss[..i]), loop, g0, c0, brk, cont)
        invariant TableKept(old(loopTable), loopTable, Ast.LoopIdsOf(ss))
        invariant AssignedOnce(old(blocks), old(nextReg), old(nextTmp)) ==> AssignedOnce(blocks, nextReg, nextTmp)
      {
        ghost var g1, c1, q := blocks, currentBlock, Here();
        LoopIdsOfElement(ss, i);
        TranslateStmt(ss[i], loop, brk, cont);
        ConfinedGrows(g1, c1, blocks, currentBlock);
        ConfinedTransitive(g0, c0, g1, c1, blocks, currentBlock);
        ImplementsNext(g1, blocks, ss[..i], ss[i], loop, p, q, Here(), brk, cont);
        assert ss[..i + 1] == ss[..i] + [ss[i]];
        i := i + 1;
      }
      assert ss[..i] == ss;
    }

    /** Translate a condition: an operand that holds its truth value. */
    method TranslateCondition(c: Ast.Expr) returns (w: Val)
      requires Valid() && Ast.WellFormedExpr(c)
      modifies this`blocks, this`currentBlock, this`nextReg, this`nextTmp, this`addressOfPrevExpr
      ensures Valid() && Confined(old(blocks), old(currentBlock), blocks, currentBlock)
      ensures Decides(blocks, c, Point(old(currentBlock), |old(blocks)[old(currentBlock)].insts|), old(nextReg), Here(), w)
      ensures AssignedOnce(old(blocks), old(nextReg), old(nextTmp)) ==> AssignedOnce(blocks, nextReg, nextTmp)
    {
      hide AssignedOnce, Ast.Eval, Evaluates, Decides;
      ghost var g0, c0, p := blocks, currentBlock, Here();
      var v := TranslateExpr(c);
      ghost var g1, q, r1 := blocks, Here(), nextReg;
      ghost var tail;
      w, tail := ToBoolean(v);
      AppendedConfined(g1, currentBlock, tail);
      ConfinedGrows(g1, currentBlock, blocks, currentBlock);
      ConfinedTransitive(g0, c0, g1, currentBlock, blocks, currentBlock);
      TestMaps(c, tail, r1, v, w);
      DecidesByTail(g1, blocks, c, p, old(nextReg), q, v, tail, r1, w);
    }

    method TranslateIf(s: Ast.Stmt, ghost loop: Ast.LoopKind, ghost brk: nat, ghost cont: nat)
      requires Valid() && s.If? && Ast.WellFormed(s, loop) && Encloses(loop, s) && NotesLoop(loopTable, loop, brk, cont)
      modifies this
      ensures Implemented(s, loop, old(blocks), old(currentBlock), brk, cont)
      ensures TableKept(old(loopTable), loopTable, Ast.LoopIds(s))
      ensures AssignedOnce(old(blocks), old(nextReg), old(nextTmp)) ==> AssignedOnce(blocks, nextReg, nextTmp)
      decreases s, 0, 1
    {
      hide AssignedOnce, Ast.Exec, Implements, Confined, Decides, HasCode;
      ghost var g0, c0, r0 := blocks, currentBlock, nextReg;
      var condition := TranslateCondition(s.cond);
      var block := currentBlock;
      ghost var g1 := blocks;
      if s.els.Some? {
        TranslateBothBranches(s, loop, condition, brk, cont, g0, c0, r0);
      } else {
        var branchIf := NewBlock();
        var branchExit := NewBlock();
        Reset(block, CondBr(condition, branchIf, branchExit));
        AppendNothing(g1, block);
        assert blocks == Forked(g1, block, [], CondBr(condition, branchIf, branchExit));
        currentBlock := branchIf;
        TranslateStmt(s.thn, loop, brk, cont);
        ghost var g2, c2 := blocks, currentBlock;
        Reset(currentBlock, Br(branchExit));
        currentBlock := branchExit;
        IfBuilt(s, loop, g0, c0, g1, block, r0, condition, g2, c2, brk, cont);
      }
    }

    /** The branches of an `if` with `else`, the `else` branch first. */
    method TranslateBothBranches(s: Ast.Stmt, ghost loop: Ast.LoopKind, condition: Val, ghost brk: nat, ghost cont: nat,
                                 ghost g0: Graph, ghost c0: nat, ghost r0: nat)
      requires Valid() && s.If? && s.els.Some? && Ast.WellFormed(s, loop) && Encloses(loop, s) && NotesLoop(loopTable, loop, brk, cont)
      requires Confined(g0, c0, blocks, currentBlock)
      requires Decides(blocks, s.cond, Point(c0, |g0[c0].insts|), r0, Here(), condition)
      modifies this
      ensures Implemented(s, loop, g0, c0, brk, cont)
      ensures TableKept(old(loopTable), loopTable, Ast.LoopIds(s))
      ensures AssignedOnce(old(blocks), old(nextReg), old(nextTmp)) ==> AssignedOnce(blocks, nextReg, nextTmp)
      decreases s, 0, 0
    {
      hide AssignedOnce, Ast.Exec, Ast.WellFormed, Ast.LoopIds, Implements, Confined, Decides, HasCode, Encloses, NotesLoop, TableKept;
      IfParts(s, loop);
      var block := currentBlock;
      ghost var g1, t1 := blocks, loopTable;
      var branchIf, branchExit, branchElse := OpenBranches(condition);
      currentBlock := branchElse;
      TranslateStmt(s.els.value, loop, brk, cont);
      ghost var g2, c2, t2 := blocks, currentBlock, loopTable;
      NotesKept(t1, t2, s.els.value, loop, brk, cont);
      StaysPending(WithThree(g1, block, CondBr(condition, branchIf, branchElse)), branchElse, g2, c2, branchIf);
      Reset(currentBlock, Br(branchExit));
      currentBlock := branchIf;
      TranslateStmt(s.thn, loop, brk, cont);
      ghost var g3, c3 := blocks, currentBlock;
      Reset(currentBlock, Br(branchExit));
      currentBlock := branchExit;
      IfElseBuilt(s, loop, g0, c0, g1, block, r0, condition, branchElse, g2, c2, branchIf, g3, c3, branchExit, brk, cont);
      TableKeptTwice(t1, t2, loopTable, Ast.LoopIds(s.els.value), Ast.LoopIds(s.thn), Ast.LoopIds(s));
    }

    /** The blocks of an `if` with `else`; control goes to one of the branches. */
    method OpenBranches(condition: Val) returns (branchIf: nat, branchExit: nat, branchElse: nat)
      requires Valid()
      modifies this`blocks
      ensures branchIf == old(|blocks|) && branchExit == branchIf + 1 && branchElse == branchIf + 2
      ensures blocks == WithThree(old(blocks), currentBlock, CondBr(condition, branchIf, branchElse))
      ensures branchElse < |blocks| && blocks[branchIf] == blocks[branchExit] == blocks[branchElse] == EmptyBlock()
      ensures AssignedOnce(old(blocks), old(nextReg), old(nextTmp)) ==> AssignedOnce(blocks, nextReg, nextTmp)
    {
      hide AssignedOnce;
      branchIf := NewBlock();
      branchExit := NewBlock();
      branchElse := NewBlock();
      Reset(currentBlock, CondBr(condition, branchIf, branchElse));
    }

    /** The blocks of a loop, noted in the loop table; control goes to the body or to the condition. */
    method OpenLoop(id: nat, bodyFirst: bool) returns (branchCond: nat, branchLoop: nat, branchExit: nat)
      requires Valid()
      modifies this`blocks, this`loopTable
      ensures branchCond == old(|blocks|) && branchLoop == branchCond + 1 && branchExit == branchCond + 2
      ensures blocks == WithThree(old(blocks), currentBlock, Br(if bodyFirst then branchLoop else branchCond))
      ensures branchExit < |blocks| && blocks[branchCond] == blocks[branchLoop] == EmptyBlock()
      ensures loopTable == old(loopTable)[id := LoopDescription(branchCond, branchLoop, branchExit)]
      ensures AssignedOnce(old(blocks), old(nextReg), old(nextTmp)) ==> AssignedOnce(blocks, nextReg, nextTmp)
    {
      hide AssignedOnce;
      ghost var g := blocks;
      branchCond := NewBlock();
      branchLoop := NewBlock();
      branchExit := NewBlock();
      loopTable := loopTable[id := LoopDescription(branchCond, branchLoop, branchExit)];
      Reset(currentBlock, Br(if bodyFirst then branchLoop else branchCond));
    }

    method TranslateDo(s: Ast.Stmt, ghost loop: Ast.LoopKind, ghost brk: nat, ghost cont: nat)
      requires Valid() && s.Do? && Ast.WellFormed(s, loop)
      modifies this
      ensures Implemented(s, loop, old(blocks), old(currentBlock), brk, cont)
      ensures TableKept(old(loopTable), loopTable, Ast.LoopIds(s))
      ensures AssignedOnce(old(blocks), old(nextReg), old(nextTmp)) ==> AssignedOnce(blocks, nextReg, nextTmp)
      decreases s, 0
    {
      hide AssignedOnce, Ast.Exec, Implements, Confined, Decides, HasCode, WithThree;
      ghost var g1 := blocks;
      var block := currentBlock;
      var branchCond, branchLoop, branchExit := OpenLoop(s.id, true);
      currentBlock := branchLoop;
      TranslateStmt(s.body, Ast.OtherLoop, branchExit, branchCond);
      ghost var g2, c2 := blocks, currentBlock;
      StaysPending(WithThree(g1, block, Br(branchLoop)), branchLoop, g2, c2, branchCond);
      Reset(currentBlock, Br(branchCond));
      currentBlock := branchCond;
      ghost var r3 := nextReg;
      var condition := TranslateCondition(s.cond);
      ghost var g3, c3 := blocks, currentBlock;
      Reset(currentBlock, CondBr(condition, branchLoop, branchExit));
      currentBlock := branchExit;
      DoBuilt(s, loop, g1, block, branchLoop, g2, c2, branchCond, g3, c3, r3, condition, branchExit, brk, cont);
    }

    method TranslateWhile(s: Ast.Stmt, ghost loop: Ast.LoopKind, ghost brk: nat, ghost cont: nat)
      requires Valid() && s.While? && Ast.WellFormed(s, loop)
      modifies this
      ensures Implemented(s, loop, old(blocks), old(currentBlock), brk, cont)
      ensures TableKept(old(loopTable), loopTable, Ast.LoopIds(s))
      ensures AssignedOnce(old(blocks), old(nextReg), old(nextTmp)) ==> AssignedOnce(blocks, nextReg, nextTmp)
      decreases s, 0
    {
      hide AssignedOnce, Ast.Exec, Implements, Confined, Decides, HasCode, WithThree;
      ghost var g1 := blocks;
      var block := currentBlock;
      var branchCond, branchLoop, branchExit := OpenLoop(s.id, false);
      currentBlock := branchCond;
      ghost var r2 := nextReg;
      var condition := TranslateCondition(s.cond);
      ghost var g2, c2 := blocks, currentBlock;
      StaysPending(WithThree(g1, block, Br(branchCond)), branchCond, g2, c2, branchLoop);
      Reset(currentBlock, CondBr(condition, branchLoop, branchExit));
      currentBlock := branchLoop;
      TranslateStmt(s.body, Ast.WhileLoop(s.id), branchExit, branchCond);
      ghost var g3, c3 := blocks, currentBlock;
      Reset(currentBlock, Br(branchCond));
      currentBlock := branchExit;
      WhileBuilt(s, loop, g1, block, branchCond, g2, c2, r2, condition, branchLoop, g3, c3, branchExit, brk, cont);
    }

    method TranslateFor(s: Ast.Stmt, ghost loop: Ast.LoopKind, ghost brk: nat, ghost cont: nat)
      requires Valid() && s.For? && Ast.WellFormed(s, loop)
      modifies this
      ensures Implemented(s, loop, old(blocks), old(currentBlock), brk, cont)
      ensures TableKept(old(loopTable), loopTable, Ast.LoopIds(s))
      ensures AssignedOnce(old(blocks), old(nextReg), old(nextTmp)) ==> AssignedOnce(blocks, nextReg, nextTmp)
      decreases s, 0, 1
    {
      hide AssignedOnce, Ast.Exec, Implements, Confined, HasCode, GuardBuilt, Ast.WellFormed, Ast.LoopIds, Ast.WellFormedOpt, TableKept, WithThree;
      ForParts(s, loop);
      ghost var g0, c0 := blocks, currentBlock;
      TranslateStmt(s.first, Ast.NoLoop, brk, cont);
      ghost var g1, t1 := blocks, loopTable;
      var block := currentBlock;
      var branchCond, branchLoop, branchExit := OpenLoop(s.id, false);
      currentBlock := branchCond;
      ghost var r2 := nextReg;
      ghost var g2, c2, w, term := TranslateGuard(s.guard, branchLoop, branchExit);
      StaysPending(WithThree(g1, block, Br(branchCond)), branchCond, g2, c2, branchLoop);
      currentBlock := branchLoop;
      ghost var g3, c3 := TranslateBodyThenStep(s, loop, branchExit, branchCond);
      ghost var g4, c4 := blocks, currentBlock;
      Reset(currentBlock, Br(branchCond));
      currentBlock := branchExit;
      TableKeptThrough(old(loopTable), t1, s.id, LoopDescription(branchCond, branchLoop, branchExit), loopTable, Ast.LoopIds(s.first), Ast.LoopIds(s.body) + Ast.LoopIds(s.step), Ast.LoopIds(s));
      ForBuilt(s, loop, g0, c0, g1, block, branchCond, g2, c2, r2, w, term, branchLoop, g3, c3, g4, c4, branchExit, brk, cont);
    }

    method TranslateBodyThenStep(s: Ast.Stmt, ghost loop: Ast.LoopKind, ghost brk: nat, ghost cont: nat) returns (ghost g: Graph, ghost c: nat)
      requires Valid() && s.For? && Ast.WellFormed(s, loop)
      modifies this
      ensures Confined(old(blocks), old(currentBlock), g, c)
      ensures Implements(g, s.body, Ast.OtherLoop, Point(old(currentBlock), |old(blocks)[old(currentBlock)].insts|), Point(c, |g[c].insts|), brk, cont)
      ensures Implemented(s.step, Ast.NoLoop, g, c, brk, cont)
      ensures TableKept(old(loopTable), loopTable, Ast.LoopIds(s.body) + Ast.LoopIds(s.step))
      ensures AssignedOnce(old(blocks), old(nextReg), old(nextTmp)) ==> AssignedOnce(blocks, nextReg, nextTmp)
      decreases s, 0, 0
    {
      hide AssignedOnce, Ast.Exec, Implements, Confined, HasCode;
      TranslateStmt(s.body, Ast.OtherLoop, brk, cont);
      g, c := blocks, currentBlock;
      TranslateStmt(s.step, Ast.NoLoop, brk, cont);
    }

    /** The condition block of a `for` loop; without a condition the loop is endless. */
    method TranslateGuard(guard: Option<Ast.Expr>, branchLoop: nat, branchExit: nat)
      returns (ghost g: Graph, ghost c: nat, ghost w: Val, ghost term: Term)
      requires Valid() && Ast.WellFormedOpt(guard)
      modifies this`blocks, this`currentBlock, this`nextReg, this`nextTmp, this`addressOfPrevExpr
      ensures c < |g| && blocks == Ended(g, c, term) && !term.Incomplete?
      ensures Confined(old(blocks), old(currentBlock), g, c)
      ensures GuardBuilt(guard, old(blocks), old(currentBlock), old(nextReg), g, c, w, term, branchLoop, branchExit)
      ensures AssignedOnce(old(blocks), old(nextReg), old(nextTmp)) ==> AssignedOnce(blocks, nextReg, nextTmp)
    {
      hide AssignedOnce;
      g, c, w, term := blocks, currentBlock, Imm(0, true), Br(branchLoop);
      if guard.Some? {
        var condition := TranslateCondition(guard.value);
        w, term, g, c := condition, CondBr(condition, branchLoop, branchExit), blocks, currentBlock;
        Reset(currentBlock, CondBr(condition, branchLoop, branchExit));
      } else {
        ConfinedSelf(blocks, currentBlock);
        Reset(currentBlock, Br(branchLoop));
      }
    }

    /** `break` and `continue`: jump to `target`; what follows is unreachable and goes to a fresh block. */
    method TranslateLeave(s: Ast.Stmt, ghost loop: Ast.LoopKind, target: nat, ghost brk: nat, ghost cont: nat)
      requires Valid() && (s.Break? || s.Continue?) && Ast.WellFormed(s, loop) && target == if s.Break? then brk else cont
      modifies this`blocks, this`currentBlock
      ensures Implemented(s, loop, old(blocks), old(currentBlock), brk, cont)
      ensures AssignedOnce(old(blocks), old(nextReg), old(nextTmp)) ==> AssignedOnce(blocks, nextReg, nextTmp)
    {
      hide AssignedOnce;
      ghost var g, c, p := blocks, currentBlock, Here();
      Reset(currentBlock, Br(target));
      currentBlock := NewBlock();
      EndedThenFresh(g, c, Br(target));
      LeaveImplements(blocks, s, loop, p, Here(), brk, cont);
    }

    method TranslateReturn(s: Ast.Stmt, ghost loop: Ast.LoopKind, ghost brk: nat, ghost cont: nat)
      requires Valid() && s.Return? && Ast.WellFormed(s, loop)
      modifies this`blocks, this`currentBlock, this`nextReg, this`nextTmp, this`addressOfPrevExpr
      ensures Implemented(s, loop, old(blocks), old(currentBlock), brk, cont)
      ensures addressOfPrevExpr == None
      ensures AssignedOnce(old(blocks), old(nextReg), old(nextTmp)) ==> AssignedOnce(blocks, nextReg, nextTmp)
    {
      hide AssignedOnce;
      ghost var g0, c0, p := blocks, currentBlock, Here();
      var value := None;
      if s.ret.Some? {
        var v := TranslateExpr(s.ret.value);
        value := Some(v);
      } else {
        ConfinedSelf(blocks, currentBlock);
      }
      ghost var g1, c1, q := blocks, currentBlock, Here();
      Reset(currentBlock, Ret(value));
      currentBlock := NewBlock();
      addressOfPrevExpr := None;
      ReturnBuilt(s, loop, g0, c0, old(nextReg), g1, c1, value, brk, cont);
    }

    /** A whole function body, from a fresh entry block on. */
    constructor (body: Ast.Stmt)
      requires Ast.WellFormed(body, Ast.NoLoop)
      ensures Valid() && AssignedOnce(blocks, nextReg, nextTmp)
      ensures forall b: nat :: b < |blocks| && b != currentBlock ==> !blocks[b].term.Incomplete?
      ensures forall m: Machine, vars :: Completes(body, m.vars, vars) <==> Arrives(blocks, Point(0, 0), m, Here(), vars)
      ensures forall m: Machine, v, vars :: Returns(body, m.vars, v, vars) <==> Halts(blocks, Point(0, 0), m, v, vars)
    {
      blocks, currentBlock := [EmptyBlock()], 0;
      nextReg, nextTmp, addressOfPrevExpr, loopTable := 0, 0, None, map[];
      new;
      TranslateStmt(body, Ast.NoLoop, 0, 0);
      hide Completes, Returns, Arrives, Halts, Implements, Ast.WellFormed;
      forall m: Machine
        ensures forall vars :: Completes(body, m.vars, vars) <==> Arrives(blocks, Point(0, 0), m, Here(), vars)
        ensures forall v, vars :: Returns(body, m.vars, v, vars) <==> Halts(blocks, Point(0, 0), m, v, vars)
      {
        RunsExactly(blocks, body, Point(0, 0), Here(), m);
      }
    }
  }

  lemma PartsWellFormed(e: Ast.Expr, op: Ast.BinaryOp, lhs: Ast.Expr, rhs: Ast.Expr)
    requires e == Ast.Binary(op, lhs, rhs) && Ast.WellFormedExpr(e) && op != Ast.Assign
    ensures Ast.WellFormedExpr(lhs) && Ast.WellFormedExpr(rhs) && !Ast.IsLValue(e)
  {
  }

  /** The translated operands of a short-circuit operator, connected by the diamond, evaluate the operator. */
  lemma ShortCircuitTranslated(e: Ast.Expr, op: Ast.BinaryOp, lhs: Ast.Expr, rhs: Ast.Expr, g0: Graph, c0: nat, r0: nat,
                               g1: Graph, c1: nat, r1: nat, l: Val, tail: seq<Inst>, w: Val,
                               g2: Graph, c2: nat, r2: nat, r3: nat, r: Val, tail': seq<Inst>, w': Val, k: nat, dst: nat)
    requires e == Ast.Binary(op, lhs, rhs) && Ast.WellFormedExpr(e) && (op == Ast.LAnd || op == Ast.LOr)
    requires Confined(g0, c0, g1, c1) && r0 <= r1 <= r2 <= r3 <= dst
    requires Evaluates(g1, lhs, Point(c0, |g0[c0].insts|), r0, Point(c1, |g1[c1].insts|), l)
    requires forall m: Machine :: TestsInto(tail, r1, l, w, k, m)
    requires Confined(Forked(g1, c1, tail, BranchesFor(op, w, |g1|, |g1| + 1)), |g1|, g2, c2)
    requires Evaluates(g2, rhs, Point(|g1|, 0), r2, Point(c2, |g2[c2].insts|), r)
    requires forall m: Machine :: TestsInto(tail', r3, r, w', k, m)
    ensures |g1| + 1 < |g2| && g2[|g1| + 1] == EmptyBlock() && c2 != |g1| + 1
    ensures var g := Joined(g2, c2, tail', |g1| + 1, [Load(dst, TmpAddr(k))]);
            && Confined(g0, c0, g, |g1| + 1)
            && Evaluates(g, e, Point(c0, |g0[c0].insts|), r0, Point(|g1| + 1, |g[|g1| + 1].insts|), Reg(dst, true))
  {
    hide Ast.Eval, TestsInto, YieldsValue;
    var exit := |g1| + 1;
    Diamond(g0, c0, g1, c1, tail, BranchesFor(op, w, |g1|, exit), g2, c2, tail', [Load(dst, TmpAddr(k))]);
    hide Confined, Grows, HasCode, EndsBlock, Forked, Joined, BranchesFor;
    var g := Joined(g2, c2, tail', exit, [Load(dst, TmpAddr(k))]);
    var p, q, q' := Point(c0, |g0[c0].insts|), Point(c1, |g1[c1].insts|), Point(c2, |g2[c2].insts|);
    EvaluatesGrows(g1, g, lhs, p, r0, q, l);
    EvaluatesGrows(g2, g, rhs, Point(|g1|, 0), r2, q', r);
    forall m: Machine
      ensures YieldsValue(g, e, p, r0, Point(exit, 1), Reg(dst, true), m)
    {
      ShortCircuitYields(g, e, op, lhs, rhs, p, r0, q, l, tail, r1, w, |g1|, exit, r2, q', r, tail', r3, w', k, dst, m);
    }
  }

  lemma NothingDone()
    ensures forall m: Machine :: DoAll([], m) == m
  {
  }

  lemma AllocaDoesNothing(a: Addr)
    ensures forall m: Machine :: DoAll([Alloca(a)], m) == m
  {
    forall m: Machine
      ensures DoAll([Alloca(a)], m) == m
    {
      assert DoAll([Alloca(a)], m) == DoAll([], Do(Alloca(a), m));
    }
  }

  /** Testing code followed by a store of the result. */
  lemma TestThenStore(before: seq<Inst>, tail: seq<Inst>, k: nat, v: Val, w: Val, r0: nat)
    requires forall m: Machine :: DoAll(before, m) == m
    requires forall m: Machine :: Tests(tail, v, w, r0, m)
    ensures forall m: Machine :: TestsInto(before + tail + [Store(TmpAddr(k), w)], r0, v, w, k, m)
  {
    forall m: Machine
      ensures TestsInto(before + tail + [Store(TmpAddr(k), w)], r0, v, w, k, m)
    {
      DoAllSum(before + tail, [Store(TmpAddr(k), w)], m);
      DoAllSum(before, tail, m);
      assert DoAll([Store(TmpAddr(k), w)], DoAll(tail, m)) == Do(Store(TmpAddr(k), w), DoAll(tail, m));
      assert Tests(tail, v, w, r0, m);
    }
  }

  /** `tail` leaves the truth value of `v` in `w`. */
  ghost predicate Tests(tail: seq<Inst>, v: Val, w: Val, r0: nat, m: Machine) {
    var m' := DoAll(tail, m);
    && m'.vars == m.vars
    && ((v.boolean ==> ValueOf(v, m.regs) == 0 || ValueOf(v, m.regs) == 1) ==> ValueOf(w, m'.regs) == Truth(ValueOf(v, m.regs) != 0))
    && KeepsRegs(m.regs, m'.regs, r0)
  }

  lemma StoreThenLoad(a: Addr, r: Val, dst: nat)
    requires a.VarAddr?
    ensures forall m: Machine :: var m' := DoAll([Store(a, r)] + [Load(dst, a)], m);
              && m'.vars == m.vars[a.x := ValueOf(r, m.regs)]
              && m'.regs == m.regs[dst := ValueOf(r, m.regs)]
  {
    forall m: Machine
      ensures DoAll([Store(a, r)] + [Load(dst, a)], m) == Do(Load(dst, a), Do(Store(a, r), m))
    {
      DoAllSum([Store(a, r)], [Load(dst, a)], m);
    }
  }

  /** Both operands translated, and their values combined by appended straight-line code. */
  lemma CombineOperands(e: Ast.Expr, lhs: Ast.Expr, rhs: Ast.Expr, g: Graph, c: nat, r0: nat, g1: Graph, c1: nat, r1: nat, l: Val,
                        g2: Graph, c2: nat, r2: nat, r: Val, tail: seq<Inst>, v: Val)
    requires Ast.WellFormedExpr(e) && Ast.WellFormedExpr(lhs) && Ast.WellFormedExpr(rhs)
    requires Confined(g, c, g1, c1) && Confined(g1, c1, g2, c2) && r0 <= r1 <= r2 && ValBelow(l, r1)
    requires Evaluates(g1, lhs, Point(c, |g[c].insts|), r0, Point(c1, |g1[c1].insts|), l)
    requires Evaluates(g2, rhs, Point(c1, |g1[c1].insts|), r1, Point(c2, |g2[c2].insts|), r)
    requires forall s: Ast.Store :: CombinesInto(tail, r2, e, lhs, rhs, l, r, v, s)
    ensures var g3 := Appended(g2, c2, tail);
            Confined(g, c, g3, c2) && Evaluates(g3, e, Point(c, |g[c].insts|), r0, Point(c2, |g3[c2].insts|), v)
  {
    var g3 := Appended(g2, c2, tail);
    AppendedConfined(g2, c2, tail);
    ConfinedTransitive(g1, c1, g2, c2, g3, c2);
    ConfinedTransitive(g, c, g1, c1, g3, c2);
    ConfinedGrows(g1, c1, g3, c2);
    ConfinedGrows(g2, c2, g3, c2);
    EvaluatesBoth(g1, g2, g3, e, lhs, rhs, Point(c, |g[c].insts|), r0, Point(c1, |g1[c1].insts|), l, r1, Point(c2, |g2[c2].insts|), r, tail, r2, v);
  }

  /** One operand translated, and its value transformed by appended straight-line code. */
  lemma ExtendOperand(e: Ast.Expr, a: Ast.Expr, g: Graph, c: nat, r0: nat, g1: Graph, c1: nat, r1: nat, x: Val, tail: seq<Inst>, v: Val)
    requires Ast.WellFormedExpr(e) && Ast.WellFormedExpr(a)
    requires Confined(g, c, g1, c1) && r0 <= r1 && Evaluates(g1, a, Point(c, |g[c].insts|), r0, Point(c1, |g1[c1].insts|), x)
    requires forall s: Ast.Store ::
               TailMaps(tail, r1, x, v, Ast.Eval(a, s).value, Ast.Eval(e, s).value, Ast.Eval(a, s).store, Ast.Eval(e, s).store)
    ensures var g2 := Appended(g1, c1, tail);
            Confined(g, c, g2, c1) && Evaluates(g2, e, Point(c, |g[c].insts|), r0, Point(c1, |g2[c1].insts|), v)
  {
    var g2 := Appended(g1, c1, tail);
    AppendedConfined(g1, c1, tail);
    ConfinedGrows(g1, c1, g2, c1);
    ConfinedTransitive(g, c, g1, c1, g2, c1);
    EvaluatesThenTail(g1, g2, a, e, Point(c, |g[c].insts|), r0, Point(c1, |g1[c1].insts|), x, tail, r1, v);
  }

  /** Operators that evaluate both operands. */
  lemma OperatorCombines(e: Ast.Expr, op: Ast.BinaryOp, lhs: Ast.Expr, rhs: Ast.Expr, tail: seq<Inst>, l: Val, r: Val, v: Val, r0: nat)
    requires e == Ast.Binary(op, lhs, rhs) && Ast.WellFormedExpr(e) && op != Ast.Assign && op != Ast.LAnd && op != Ast.LOr
    requires v.boolean ==> IsComparison(op)
    requires forall m: Machine :: AppliesOp(tail, OpcodeOf(op), l, r, v, r0, m)
    ensures forall s: Ast.Store :: CombinesInto(tail, r0, e, lhs, rhs, l, r, v, s)
  {
    forall s: Ast.Store
      ensures CombinesInto(tail, r0, e, lhs, rhs, l, r, v, s)
    {
      var ol := Ast.Eval(lhs, s);
      var or := Ast.Eval(rhs, ol.store);
      assert Ast.Eval(e, s) == Ast.Outcome(Ast.BinaryValue(op, ol.value, or.value), or.store);
      forall m: Machine | m.vars == or.store && ValueOf(l, m.regs) == ol.value && ValueOf(r, m.regs) == or.value
        ensures Delivers(m, DoAll(tail, m), r0, v, Ast.BinaryValue(op, ol.value, or.value), or.store)
      {
        assert AppliesOp(tail, OpcodeOf(op), l, r, v, r0, m);
      }
    }
  }

  lemma EvaluatesInPlace(g: Graph, c: nat, tail: seq<Inst>, e: Ast.Expr, r0: nat, v: Val)
    requires c < |g| && g[c].term.Incomplete? && Ast.WellFormedExpr(e)
    requires forall m: Machine :: Delivers(m, DoAll(tail, m), r0, v, Ast.Eval(e, m.vars).value, Ast.Eval(e, m.vars).store)
    ensures var g' := Appended(g, c, tail);
            Confined(g, c, g', c) && Evaluates(g', e, Point(c, |g[c].insts|), r0, Point(c, |g'[c].insts|), v)
  {
    hide Ast.Eval, Ast.WellFormedExpr, DoAll, Reaches, Delivers, Confined, HasCode;
    var g' := Appended(g, c, tail);
    AppendedConfined(g, c, tail);
    var p, q := Point(c, |g[c].insts|), Point(c, |g'[c].insts|);
    forall m: Machine
      ensures YieldsValue(g', e, p, r0, q, v, m)
    {
      RunsStraight(g', p, tail, m);
      assert Delivers(m, DoAll(tail, m), r0, v, Ast.Eval(e, m.vars).value, Ast.Eval(e, m.vars).store);
    }
  }

  lemma SameEvaluation(g: Graph, e: Ast.Expr, e': Ast.Expr, p: Point, r0: nat, q: Point, v: Val)
    requires Ast.WellFormedExpr(e) && Ast.WellFormedExpr(e') && Evaluates(g, e, p, r0, q, v)
    requires forall s: Ast.Store :: Ast.Eval(e', s) == Ast.Eval(e, s)
    ensures Evaluates(g, e', p, r0, q, v)
  {
    forall m: Machine
      ensures YieldsValue(g, e', p, r0, q, v, m)
    {
      assert YieldsValue(g, e, p, r0, q, v, m);
    }
  }

  // ---- how the pieces of a statement come together ----

  /** A loop is not entered again inside itself. */
  predicate Encloses(loop: Ast.LoopKind, s: Ast.Stmt) {
    loop.WhileLoop? ==> loop.id !in Ast.LoopIds(s)
  }

  predicate NotesLoop(table: map<nat, LoopDescription>, loop: Ast.LoopKind, brk: nat, cont: nat) {
    loop.WhileLoop? ==> loop.id in table && table[loop.id].branchExit == brk && table[loop.id].branchCond == cont
  }

  predicate TableKept(t: map<nat, LoopDescription>, t': map<nat, LoopDescription>, ids: set<nat>) {
    forall id :: id in t && id !in ids ==> id in t' && t'[id] == t[id]
  }

  lemma TableKeptThrough(t0: map<nat, LoopDescription>, t1: map<nat, LoopDescription>, id: nat, d: LoopDescription,
                         t2: map<nat, LoopDescription>, a: set<nat>, b: set<nat>, all: set<nat>)
    requires TableKept(t0, t1, a) && TableKept(t1[id := d], t2, b) && {id} + a + b <= all
    ensures TableKept(t0, t2, all)
  {
  }

  lemma TableKeptTwice(t0: map<nat, LoopDescription>, t1: map<nat, LoopDescription>, t2: map<nat, LoopDescription>, a: set<nat>, b: set<nat>, all: set<nat>)
    requires TableKept(t0, t1, a) && TableKept(t1, t2, b) && a + b <= all
    ensures TableKept(t0, t2, all)
  {
  }

  /** Translating `s` does not touch the entry of the enclosing loop. */
  lemma NotesKept(t: map<nat, LoopDescription>, t': map<nat, LoopDescription>, s: Ast.Stmt, loop: Ast.LoopKind, brk: nat, cont: nat)
    requires NotesLoop(t, loop, brk, cont) && TableKept(t, t', Ast.LoopIds(s)) && Encloses(loop, s)
    ensures NotesLoop(t', loop, brk, cont)
  {
  }

  lemma IfParts(s: Ast.Stmt, loop: Ast.LoopKind)
    requires s.If? && s.els.Some? && Ast.WellFormed(s, loop) && Encloses(loop, s)
    ensures Ast.WellFormedExpr(s.cond) && Ast.WellFormed(s.thn, loop) && Ast.WellFormed(s.els.value, loop)
    ensures Encloses(loop, s.thn) && Encloses(loop, s.els.value)
    ensures Ast.LoopIds(s.els.value) + Ast.LoopIds(s.thn) <= Ast.LoopIds(s)
  {
  }

  lemma ForParts(s: Ast.Stmt, loop: Ast.LoopKind)
    requires s.For? && Ast.WellFormed(s, loop)
    ensures Ast.WellFormed(s.first, Ast.NoLoop) && Ast.WellFormedOpt(s.guard)
    ensures Ast.WellFormed(s.body, Ast.OtherLoop) && Ast.WellFormed(s.step, Ast.NoLoop)
    ensures Ast.LoopIds(s) == {s.id} + Ast.LoopIds(s.first) + Ast.LoopIds(s.step) + Ast.LoopIds(s.body)
  {
  }

  lemma {:induction false} LoopIdsOfElement(ss: seq<Ast.Stmt>, i: nat)
    requires i < |ss|
    ensures Ast.LoopIds(ss[i]) <= Ast.LoopIdsOf(ss)
  {
    if i > 0 {
      LoopIdsOfElement(ss[1..], i - 1);
    }
  }

  lemma ConfinedSelf(g: Graph, c: nat)
    requires c < |g| && g[c].term.Incomplete?
    ensures Confined(g, c, g, c)
  {
  }

  lemma EndedThenFresh(g: Graph, c: nat, term: Term)
    requires c < |g| && g[c].term.Incomplete? && !term.Incomplete?
    ensures var g' := Ended(g, c, term) + [EmptyBlock()];
            Confined(g, c, g', |g|) && Grows(g, g') && EndsBlock(g', Point(c, |g[c].insts|), term)
  {
    var g' := Ended(g, c, term) + [EmptyBlock()];
    assert g'[c] == Block(g[c].insts, term);
    ConfinedGrows(g, c, g', |g|);
  }

  lemma EmptyCompound(g: Graph, c: nat, loop: Ast.LoopKind, brk: nat, cont: nat)
    requires c < |g| && g[c].term.Incomplete?
    ensures Confined(g, c, g, c)
    ensures Implements(g, Ast.Compound([]), loop, Point(c, |g[c].insts|), Point(c, |g[c].insts|), brk, cont)
  {
    var p := Point(c, |g[c].insts|);
    forall m: Machine, n: nat
      ensures Behaves(g, Ast.Compound([]), loop, p, p, brk, cont, m, n)
    {
      ReachesSelf(g, p, m);
    }
  }

  lemma TestMaps(c: Ast.Expr, tail: seq<Inst>, r0: nat, v: Val, w: Val)
    requires Ast.WellFormedExpr(c) && w.boolean
    requires forall m: Machine :: Tests(tail, v, w, r0, m)
    ensures forall s: Ast.Store ::
              TailMaps(tail, r0, v, w, Ast.Eval(c, s).value, Truth(Ast.Eval(c, s).value != 0), Ast.Eval(c, s).store, Ast.Eval(c, s).store)
  {
    hide Ast.Eval, DoAll;
    forall s: Ast.Store
      ensures TailMaps(tail, r0, v, w, Ast.Eval(c, s).value, Truth(Ast.Eval(c, s).value != 0), Ast.Eval(c, s).store, Ast.Eval(c, s).store)
    {
      var o := Ast.Eval(c, s);
      forall m: Machine | m.vars == o.store && ValueOf(v, m.regs) == o.value && (v.boolean ==> o.value == 0 || o.value == 1)
        ensures Delivers(m, DoAll(tail, m), r0, w, Truth(o.value != 0), o.store)
      {
        assert Tests(tail, v, w, r0, m);
      }
    }
  }

  lemma DeclBuilt(s: Ast.Stmt, loop: Ast.LoopKind, g0: Graph, c0: nat, g2: Graph, c2: nat, r0: nat, v: Val, brk: nat, cont: nat)
    requires s.Decl? && s.init.Some? && Ast.WellFormed(s, loop) && c0 < |g0| && g0[c0].term.Incomplete?
    requires Confined(Appended(g0, c0, [Alloca(VarAddr(s.x))]), c0, g2, c2)
    requires Evaluates(g2, s.init.value, Point(c0, |g0[c0].insts| + 1), r0, Point(c2, |g2[c2].insts|), v)
    ensures var g := Appended(g2, c2, [Store(VarAddr(s.x), v)]);
            Confined(g0, c0, g, c2) && Implements(g, s, loop, Point(c0, |g0[c0].insts|), Point(c2, |g[c2].insts|), brk, cont)
  {
    hide Ast.Exec, Evaluates, Implements;
    var alloca, store := [Alloca(VarAddr(s.x))], [Store(VarAddr(s.x), v)];
    var g1, g := Appended(g0, c0, alloca), Appended(g2, c2, store);
    AppendedConfined(g0, c0, alloca);
    AppendedConfined(g2, c2, store);
    ConfinedTransitive(g0, c0, g1, c0, g2, c2);
    ConfinedTransitive(g0, c0, g2, c2, g, c2);
    ConfinedGrows(g1, c0, g2, c2);
    ConfinedGrows(g2, c2, g, c2);
    GrowsTransitive(g1, g2, g);
    var p, q := Point(c0, |g0[c0].insts|), Point(c2, |g2[c2].insts|);
    CodeStays(g1, g, p, alloca);
    DeclImplements(g2, g, s.x, s.init.value, loop, p, Point(p.b, p.pc + 1), r0, q, v, brk, cont);
  }

  lemma CodeStays(g: Graph, g': Graph, p: Point, code: seq<Inst>)
    requires Grows(g, g') && HasCode(g, p, code)
    ensures HasCode(g', p, code)
  {
    assert BlockGrows(g[p.b], g'[p.b]);
    var insts := g'[p.b].insts;
    assert insts[..|g[p.b].insts|] == g[p.b].insts;
    assert insts[p.pc..p.pc + |code|] == insts[..|g[p.b].insts|][p.pc..p.pc + |code|];
  }

  lemma ReturnBuilt(s: Ast.Stmt, loop: Ast.LoopKind, g0: Graph, c0: nat, r0: nat, g1: Graph, c1: nat, v: Option<Val>, brk: nat, cont: nat)
    requires s.Return? && Ast.WellFormed(s, loop) && Confined(g0, c0, g1, c1) && (s.ret.Some? <==> v.Some?)
    requires if s.ret.Some? then Evaluates(g1, s.ret.value, Point(c0, |g0[c0].insts|), r0, Point(c1, |g1[c1].insts|), v.value)
             else g0 == g1 && c0 == c1
    ensures var g := Ended(g1, c1, Ret(v)) + [EmptyBlock()];
            Confined(g0, c0, g, |g1|) && Implements(g, s, loop, Point(c0, |g0[c0].insts|), Point(|g1|, 0), brk, cont)
  {
    hide Ast.Exec, Evaluates, Implements;
    var g := Ended(g1, c1, Ret(v)) + [EmptyBlock()];
    EndedThenFresh(g1, c1, Ret(v));
    ConfinedTransitive(g0, c0, g1, c1, g, |g1|);
    var p, q := Point(c0, |g0[c0].insts|), Point(c1, |g1[c1].insts|);
    if s.ret.Some? {
      EvaluatesGrows(g1, g, s.ret.value, p, r0, q, v.value);
    }
    ReturnImplements(g, s.ret, loop, p, r0, q, v, Point(|g1|, 0), brk, cont);
  }

  lemma IfBuilt(s: Ast.Stmt, loop: Ast.LoopKind, g0: Graph, c0: nat, g1: Graph, c1: nat, r0: nat, w: Val, g2: Graph, c2: nat, brk: nat, cont: nat)
    requires s.If? && s.els.None? && Ast.WellFormed(s, loop) && Confined(g0, c0, g1, c1)
    requires Decides(g1, s.cond, Point(c0, |g0[c0].insts|), r0, Point(c1, |g1[c1].insts|), w)
    requires Confined(Forked(g1, c1, [], CondBr(w, |g1|, |g1| + 1)), |g1|, g2, c2)
    requires Implements(g2, s.thn, loop, Point(|g1|, 0), Point(c2, |g2[c2].insts|), brk, cont)
    ensures |g1| + 1 < |g2| && c2 != |g1| + 1 && g2[|g1| + 1] == EmptyBlock()
    ensures var g := Ended(g2, c2, Br(|g1| + 1));
            Confined(g0, c0, g, |g1| + 1) && Implements(g, s, loop, Point(c0, |g0[c0].insts|), Point(|g1| + 1, 0), brk, cont)
  {
    hide Ast.Exec, Implements, Decides;
    var exit := |g1| + 1;
    Diamond(g0, c0, g1, c1, [], CondBr(w, |g1|, exit), g2, c2, [], []);
    hide Confined, Grows;
    var g := Joined(g2, c2, [], exit, []);
    AppendNothing(g2, c2);
    AppendNothing(Ended(g2, c2, Br(exit)), exit);
    assert g == Ended(g2, c2, Br(exit));
    var p, q, q' := Point(c0, |g0[c0].insts|), Point(c1, |g1[c1].insts|), Point(c2, |g2[c2].insts|);
    DecidesGrows(g1, g, s.cond, p, r0, q, w);
    ImplementsGrows(g2, g, s.thn, loop, Point(|g1|, 0), q', brk, cont);
    IfImplements(g, s, loop, p, r0, q, w, |g1|, exit, q', q', exit, brk, cont);
  }

  lemma IfElseBuilt(s: Ast.Stmt, loop: Ast.LoopKind, g0: Graph, c0: nat, g1: Graph, c1: nat, r0: nat, w: Val,
                    y: nat, g2: Graph, c2: nat, x: nat, g3: Graph, c3: nat, exit: nat, brk: nat, cont: nat)
    requires s.If? && s.els.Some? && Ast.WellFormed(s, loop) && Confined(g0, c0, g1, c1)
    requires x == |g1| && exit == |g1| + 1 && y == |g1| + 2
    requires Decides(g1, s.cond, Point(c0, |g0[c0].insts|), r0, Point(c1, |g1[c1].insts|), w)
    requires Confined(WithThree(g1, c1, CondBr(w, x, y)), y, g2, c2)
    requires Implements(g2, s.els.value, loop, Point(y, 0), Point(c2, |g2[c2].insts|), brk, cont)
    requires Confined(Ended(g2, c2, Br(exit)), x, g3, c3)
    requires Implements(g3, s.thn, loop, Point(x, 0), Point(c3, |g3[c3].insts|), brk, cont)
    ensures exit < |g3| && c3 != exit && g3[exit] == EmptyBlock()
    ensures var g := Ended(g3, c3, Br(exit));
            Confined(g0, c0, g, exit) && Implements(g, s, loop, Point(c0, |g0[c0].insts|), Point(exit, 0), brk, cont)
  {
    hide Ast.Exec, Implements, Decides;
    TwoArms(g0, c0, g1, c1, CondBr(w, x, y), y, g2, c2, Br(exit), x, g3, c3, Br(exit), exit);
    hide Confined, Grows;
    var g := Ended(g3, c3, Br(exit));
    var p, q, qy, qx := Point(c0, |g0[c0].insts|), Point(c1, |g1[c1].insts|), Point(c2, |g2[c2].insts|), Point(c3, |g3[c3].insts|);
    DecidesGrows(g1, g, s.cond, p, r0, q, w);
    ImplementsGrows(g2, g, s.els.value, loop, Point(y, 0), qy, brk, cont);
    ImplementsGrows(g3, g, s.thn, loop, Point(x, 0), qx, brk, cont);
    IfImplements(g, s, loop, p, r0, q, w, x, y, qx, qy, exit, brk, cont);
  }

  lemma DoBuilt(s: Ast.Stmt, loop: Ast.LoopKind, g1: Graph, c1: nat, body: nat, g2: Graph, c2: nat, cond: nat, g3: Graph, c3: nat,
                r3: nat, w: Val, exit: nat, brk: nat, cont: nat)
    requires s.Do? && Ast.WellFormed(s, loop) && c1 < |g1| && g1[c1].term.Incomplete?
    requires cond == |g1| && body == |g1| + 1 && exit == |g1| + 2
    requires Confined(WithThree(g1, c1, Br(body)), body, g2, c2)
    requires Implements(g2, s.body, Ast.OtherLoop, Point(body, 0), Point(c2, |g2[c2].insts|), exit, cond)
    requires Confined(Ended(g2, c2, Br(cond)), cond, g3, c3)
    requires Decides(g3, s.cond, Point(cond, 0), r3, Point(c3, |g3[c3].insts|), w)
    ensures exit < |g3| && c3 != exit && g3[exit] == EmptyBlock()
    ensures var g := Ended(g3, c3, CondBr(w, body, exit));
            Confined(g1, c1, g, exit) && Implements(g, s, loop, Point(c1, |g1[c1].insts|), Point(exit, 0), brk, cont)
  {
    hide Ast.Exec, Implements, Decides;
    ConfinedSelf(g1, c1);
    TwoArms(g1, c1, g1, c1, Br(body), body, g2, c2, Br(cond), cond, g3, c3, CondBr(w, body, exit), exit);
    hide Confined, Grows;
    var g := Ended(g3, c3, CondBr(w, body, exit));
    var p, q2, q3 := Point(c1, |g1[c1].insts|), Point(c2, |g2[c2].insts|), Point(c3, |g3[c3].insts|);
    ImplementsGrows(g2, g, s.body, Ast.OtherLoop, Point(body, 0), q2, exit, cond);
    DecidesGrows(g3, g, s.cond, Point(cond, 0), r3, q3, w);
    LoopImplements(g, s, loop, p, p, Shape(cond, body, exit, r3, q3, w, q2, q2), brk, cont);
  }

  lemma WhileBuilt(s: Ast.Stmt, loop: Ast.LoopKind, g1: Graph, c1: nat, cond: nat, g2: Graph, c2: nat, r2: nat, w: Val,
                   body: nat, g3: Graph, c3: nat, exit: nat, brk: nat, cont: nat)
    requires s.While? && Ast.WellFormed(s, loop) && c1 < |g1| && g1[c1].term.Incomplete?
    requires cond == |g1| && body == |g1| + 1 && exit == |g1| + 2
    requires Confined(WithThree(g1, c1, Br(cond)), cond, g2, c2)
    requires Decides(g2, s.cond, Point(cond, 0), r2, Point(c2, |g2[c2].insts|), w)
    requires Confined(Ended(g2, c2, CondBr(w, body, exit)), body, g3, c3)
    requires Implements(g3, s.body, Ast.WhileLoop(s.id), Point(body, 0), Point(c3, |g3[c3].insts|), exit, cond)
    ensures exit < |g3| && c3 != exit && g3[exit] == EmptyBlock()
    ensures var g := Ended(g3, c3, Br(cond));
            Confined(g1, c1, g, exit) && Implements(g, s, loop, Point(c1, |g1[c1].insts|), Point(exit, 0), brk, cont)
  {
    hide Ast.Exec, Implements, Decides;
    ConfinedSelf(g1, c1);
    TwoArms(g1, c1, g1, c1, Br(cond), cond, g2, c2, CondBr(w, body, exit), body, g3, c3, Br(cond), exit);
    hide Confined, Grows;
    var g := Ended(g3, c3, Br(cond));
    var p, q2, q3 := Point(c1, |g1[c1].insts|), Point(c2, |g2[c2].insts|), Point(c3, |g3[c3].insts|);
    DecidesGrows(g2, g, s.cond, Point(cond, 0), r2, q2, w);
    ImplementsGrows(g3, g, s.body, Ast.WhileLoop(s.id), Point(body, 0), q3, exit, cond);
    LoopImplements(g, s, loop, p, p, Shape(cond, body, exit, r2, q2, w, q3, q3), brk, cont);
  }

  ghost predicate GuardBuilt(guard: Option<Ast.Expr>, g: Graph, c: nat, r0: nat, g': Graph, c': nat, w: Val, term: Term, body: nat, exit: nat)
    requires Ast.WellFormedOpt(guard) && c < |g| && c' < |g'|
  {
    if guard.Some? then
      term == CondBr(w, body, exit) && Decides(g', guard.value, Point(c, |g[c].insts|), r0, Point(c', |g'[c'].insts|), w)
    else
      term == Br(body) && g' == g && c' == c
  }

  lemma ForBuilt(s: Ast.Stmt, loop: Ast.LoopKind, g0: Graph, c0: nat, g1: Graph, c1: nat, cond: nat, g2: Graph, c2: nat, r2: nat, w: Val, term: Term,
                 body: nat, g3: Graph, c3: nat, g4: Graph, c4: nat, exit: nat, brk: nat, cont: nat)
    requires s.For? && Ast.WellFormed(s, loop) && Confined(g0, c0, g1, c1)
    requires cond == |g1| && body == |g1| + 1 && exit == |g1| + 2
    requires Implements(g1, s.first, Ast.NoLoop, Point(c0, |g0[c0].insts|), Point(c1, |g1[c1].insts|), brk, cont)
    requires Confined(WithThree(g1, c1, Br(cond)), cond, g2, c2)
    requires !term.Incomplete? && GuardBuilt(s.guard, WithThree(g1, c1, Br(cond)), cond, r2, g2, c2, w, term, body, exit)
    requires Confined(Ended(g2, c2, term), body, g3, c3)
    requires Implements(g3, s.body, Ast.OtherLoop, Point(body, 0), Point(c3, |g3[c3].insts|), exit, cond)
    requires Confined(g3, c3, g4, c4)
    requires Implements(g4, s.step, Ast.NoLoop, Point(c3, |g3[c3].insts|), Point(c4, |g4[c4].insts|), exit, cond)
    ensures exit < |g4| && c4 != exit && g4[exit] == EmptyBlock()
    ensures var g := Ended(g4, c4, Br(cond));
            Confined(g0, c0, g, exit) && Implements(g, s, loop, Point(c0, |g0[c0].insts|), Point(exit, 0), brk, cont)
  {
    hide Ast.Exec, Implements, Decides, HasCode;
    ConfinedTransitive(Ended(g2, c2, term), body, g3, c3, g4, c4);
    ConfinedGrows(g3, c3, g4, c4);
    var f := WithThree(g1, c1, Br(cond));
    assert f[cond] == EmptyBlock();
    TwoArms(g0, c0, g1, c1, Br(cond), cond, g2, c2, term, body, g4, c4, Br(cond), exit);
    hide Confined;
    var g := Ended(g4, c4, Br(cond));
    GrowsTransitive(g3, g4, g);
    hide Grows;
    var p, q1, q2, q3, q4 := Point(c0, |g0[c0].insts|), Point(c1, |g1[c1].insts|), Point(c2, |g2[c2].insts|), Point(c3, |g3[c3].insts|), Point(c4, |g4[c4].insts|);
    ImplementsGrows(g1, g, s.first, Ast.NoLoop, p, q1, brk, cont);
    if s.guard.Some? {
      DecidesGrows(g2, g, s.guard.value, Point(cond, 0), r2, q2, w);
    }
    ImplementsGrows(g3, g, s.body, Ast.OtherLoop, Point(body, 0), q3, exit, cond);
    ImplementsGrows(g4, g, s.step, Ast.NoLoop, q3, q4, exit, cond);
    LoopImplements(g, s, loop, p, q1, Shape(cond, body, exit, r2, q2, w, q3, q4), brk, cont);
  }
}
