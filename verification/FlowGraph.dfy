/** The intermediate representation: basic blocks, and the machine that runs them. */
module FlowGraph {
  import opened Int32
  import opened Options

  /** Memory cells: source variables and the cells that hold short-circuit results. */
  datatype Addr = VarAddr(x: nat) | TmpAddr(k: nat)

  /** An operand; `boolean` is its static type. A boolean is 0 or 1 in a full register. */
  datatype Val = Imm(n: int, boolean: bool) | Reg(r: nat, boolean: bool)

  datatype Opcode =
    | AddOp | SubOp | MulOp | SDiv | SRem
    | AndOp | OrOp | XorOp | ShlOp | AShr
    | CmpEQ | CmpNE | SLT | SLE | SGT | SGE

  datatype Inst =
    | Alloca(a: Addr)
    | Load(dst: nat, a: Addr)
    | Store(a: Addr, v: Val)
    | ZExt(dst: nat, v: Val)
    | Bin(dst: nat, op: Opcode, l: Val, r: Val)

  /** How a block ends; a block under construction is incomplete. */
  datatype Term = Incomplete | Br(target: nat) | CondBr(control: Val, branch: nat, branchElse: nat) | Ret(v: Option<Val>)

  datatype Block = Block(insts: seq<Inst>, term: Term)

  type Graph = seq<Block>

  // ---- the machine ----

  datatype Machine = Machine(vars: map<nat, int>, tmps: map<nat, int>, regs: map<nat, int>)

  datatype Conf = At(b: nat, pc: nat, m: Machine) | Halt(v: Option<int>, vars: map<nat, int>)

  function Read(m: map<nat, int>, k: nat): int {
    if k in m then m[k] else 0
  }

  function ReadAddr(m: Machine, a: Addr): int {
    match a
    case VarAddr(x) => Read(m.vars, x)
    case TmpAddr(k) => Read(m.tmps, k)
  }

  function WriteAddr(m: Machine, a: Addr, v: int): Machine {
    match a
    case VarAddr(x) => m.(vars := m.vars[x := v])
    case TmpAddr(k) => m.(tmps := m.tmps[k := v])
  }

  function ValueOf(v: Val, regs: map<nat, int>): int {
    match v
    case Imm(n, _) => n
    case Reg(r, _) => Read(regs, r)
  }

  function OpValue(op: Opcode, a: int, b: int): int {
    match op
    case AddOp => Wrap(a + b)
    case SubOp => Wrap(a - b)
    case MulOp => Wrap(a * b)
    case SDiv => Wrap(TruncDiv(a, b))
    case SRem => Wrap(TruncRem(a, b))
    case AndOp => BitAnd(a, b)
    case OrOp => BitOr(a, b)
    case XorOp => BitXor(a, b)
    case ShlOp => ShiftLeft(a, b)
    case AShr => ShiftRight(a, b)
    case CmpEQ => Truth(a == b)
    case CmpNE => Truth(a != b)
    case SLT => Truth(a < b)
    case SLE => Truth(a <= b)
    case SGT => Truth(a > b)
    case SGE => Truth(a >= b)
  }

  function Do(i: Inst, m: Machine): Machine {
    match i
    case Alloca(_) => m
    case Load(dst, a) => m.(regs := m.regs[dst := ReadAddr(m, a)])
    case Store(a, v) => WriteAddr(m, a, ValueOf(v, m.regs))
    case ZExt(dst, v) => m.(regs := m.regs[dst := ValueOf(v, m.regs)])
    case Bin(dst, op, l, r) => m.(regs := m.regs[dst := OpValue(op, ValueOf(l, m.regs), ValueOf(r, m.regs))])
  }

  /** One step; none from the end of an incomplete block, and none after a return. */
  function Step(g: Graph, c: Conf): Option<Conf> {
    match c
    case Halt(_, _) => None
    case At(b, pc, m) =>
      if b >= |g| || pc > |g[b].insts| then None
      else if pc < |g[b].insts| then Some(At(b, pc + 1, Do(g[b].insts[pc], m)))
      else
        match g[b].term
        case Incomplete => None
        case Br(t) => Some(At(t, 0, m))
        case CondBr(c, t, f) => Some(At(if ValueOf(c, m.regs) != 0 then t else f, 0, m))
        case Ret(v) => Some(Halt(if v.Some? then Some(ValueOf(v.value, m.regs)) else None, m.vars))
  }

  function Run(g: Graph, n: nat, c: Conf): Option<Conf>
    decreases n
  {
    if n == 0 then Some(c)
    else
      var next := Step(g, c);
      if next.None? then None else Run(g, n - 1, next.value)
  }

  lemma {:induction false} RunSum(g: Graph, n: nat, k: nat, c: Conf)
    requires Run(g, n, c).Some?
    ensures Run(g, n + k, c) == Run(g, k, Run(g, n, c).value)
    decreases n
  {
    if n > 0 {
      RunSum(g, n - 1, k, Step(g, c).value);
    }
  }

  lemma {:induction false} RunPrefix(g: Graph, n: nat, k: nat, c: Conf)
    requires Run(g, n, c).Some? && k <= n
    ensures Run(g, k, c).Some?
    decreases k
  {
    if k > 0 {
      RunPrefix(g, n - 1, k - 1, Step(g, c).value);
    }
  }

  /** A run that gets stuck gets stuck once. */
  lemma StuckOnce(g: Graph, n: nat, k: nat, c: Conf)
    requires Run(g, n, c).Some? && Step(g, Run(g, n, c).value).None? && Run(g, k, c).Some?
    ensures k <= n
  {
    if k > n {
      RunSum(g, n, 1, c);
      RunPrefix(g, k, n + 1, c);
    }
  }

  // ---- growing a graph ----

  ghost predicate BlockGrows(x: Block, y: Block) {
    if x.term.Incomplete? then x.insts <= y.insts else y == x
  }

  /** Blocks may be added, and incomplete blocks extended and completed. */
  ghost predicate Grows(g: Graph, g': Graph) {
    |g| <= |g'| && forall b :: 0 <= b < |g| ==> BlockGrows(g[b], g'[b])
  }

  lemma GrowsTransitive(g: Graph, g': Graph, g'': Graph)
    requires Grows(g, g') && Grows(g', g'')
    ensures Grows(g, g'')
  {
    forall b | 0 <= b < |g|
      ensures BlockGrows(g[b], g''[b])
    {
      assert BlockGrows(g[b], g'[b]) && BlockGrows(g'[b], g''[b]);
    }
  }

  /** What a graph can do, every later graph can do. */
  lemma {:induction false} RunGrows(g: Graph, g': Graph, n: nat, c: Conf)
    requires Grows(g, g') && Run(g, n, c).Some?
    ensures Run(g', n, c) == Run(g, n, c)
    decreases n
  {
    if n > 0 {
      assert Step(g', c) == Step(g, c) by {
        if c.At? {
          assert BlockGrows(g[c.b], g'[c.b]);
        }
      }
      RunGrows(g, g', n - 1, Step(g, c).value);
    }
  }
}
