/** What the operators of the language, and the instructions that stand for them, compute, in numbers. */
module MachineArithmetic {
  import opened Int32
  import opened Ast

  ghost predicate InRange(x: int) {
    -0x8000_0000 <= x < 0x8000_0000
  }

  ghost predicate SameModulo(x: int, y: int) {
    (x - y) % 0x1_0000_0000 == 0
  }

  function Abs(x: int): nat {
    if x < 0 then -x else x
  }

  /** `b` goes `q` times into `a`; what remains has the sign of `a` and is smaller than `b`. */
  ghost predicate Divides(a: int, b: int, q: int, r: int) {
    a == q * b + r && Abs(r) < Abs(b) && (r > 0 ==> a > 0) && (r < 0 ==> a < 0)
  }

  /** Bit `k` of the two's complement form of `x`. */
  function Bit(x: int, k: nat): int {
    x / Pow2(k) % 2
  }

  /** Operands for which the result matters: no division by zero or out of the range, no shift by the width or more. */
  ghost predicate Defined(op: BinaryOp, a: int, b: int) {
    match op
    case Assign => false
    case Div => b != 0 && !(a == -0x8000_0000 && b == -1)
    case Mod => b != 0 && !(a == -0x8000_0000 && b == -1)
    case Shl => 0 <= b < 32
    case Shr => 0 <= b < 32
    case _ => true
  }

  /** What makes `c` the result of an operator that evaluates both operands. */
  ghost predicate IsResult(op: BinaryOp, a: int, b: int, c: int) {
    match op
    case Add => InRange(c) && SameModulo(c, a + b)
    case Sub => InRange(c) && SameModulo(c, a - b)
    case Mul => InRange(c) && SameModulo(c, a * b)
    case Div => exists r :: Divides(a, b, c, r)
    case Mod => exists q :: Divides(a, b, q, c)
    case And => InRange(c) && forall k :: 0 <= k < 32 ==> Bit(c, k) == Bit(a, k) * Bit(b, k)
    case Or => InRange(c) && forall k :: 0 <= k < 32 ==> Bit(c, k) == Bit(a, k) + Bit(b, k) - Bit(a, k) * Bit(b, k)
    case Xor => InRange(c) && forall k :: 0 <= k < 32 ==> Bit(c, k) == (Bit(a, k) + Bit(b, k)) % 2
    case Shl => InRange(c) && 0 <= b && SameModulo(c, a * Pow2(b))
    case Shr => 0 <= b && c * Pow2(b) <= a < (c + 1) * Pow2(b)
    case LT => c == if a < b then 1 else 0
    case LE => c == if a <= b then 1 else 0
    case GT => c == if a > b then 1 else 0
    case GE => c == if a >= b then 1 else 0
    case EQ => c == if a == b then 1 else 0
    case NE => c == if a != b then 1 else 0
    case LAnd => c == if a != 0 && b != 0 then 1 else 0
    case LOr => c == if a != 0 || b != 0 then 1 else 0
    case Assign => c == b
  }

  // ---- powers of two and bits ----

  /** The factors of the shifts: each is twice the one before, and the width of a register is 32. */
  lemma {:induction false} PowersOfTwo(m: nat, n: nat)
    ensures Pow2(0) == 1 && Pow2(1) == 2 && Pow2(8) == 0x100 && Pow2(31) == 0x8000_0000 && Pow2(32) == 0x1_0000_0000
    ensures Pow2(m + n) == Pow2(m) * Pow2(n)
  {
    PowersOfSum(m, n);
    PowersOfSum(4, 4);
    PowersOfSum(8, 8);
    PowersOfSum(16, 16);
    assert Pow2(32) == 2 * Pow2(31);
  }

  lemma {:induction false} PowersOfSum(m: nat, n: nat)
    ensures Pow2(m + n) == Pow2(m) * Pow2(n)
  {
    if m > 0 {
      PowersOfSum(m - 1, n);
      assert Pow2(m + n) == 2 * Pow2(m - 1 + n);
    }
  }

  lemma HalveThenDivide(x: int, p: int)
    requires p > 0
    ensures x / 2 / p == x / (2 * p)
  {
    var q, r := x / 2 / p, x / 2 % p;
    assert x == 2 * (p * q + r) + x % 2;
    QuotientIs(x, 2 * p, q, 2 * r + x % 2);
  }

  /** A multiple of `d` other than zero is at least as far from zero. */
  lemma MultipleIsFar(d: int, k: int)
    requires d > 0
    ensures k >= 1 ==> d * k >= d
    ensures k <= -1 ==> d * k <= -d
  {
  }

  lemma QuotientIs(x: int, d: int, q: int, r: int)
    requires d > 0 && x == d * q + r && 0 <= r < d
    ensures x / d == q && x % d == r
  {
    var q', r' := x / d, x % d;
    var k := q - q';
    assert d * k == d * q - d * q';
    MultipleIsFar(d, k);
  }

  /** The lowest bit, and the others as bits of the half. */
  lemma BitSteps(x: int, k: nat)
    ensures k == 0 ==> Bit(x, k) == x % 2
    ensures k > 0 ==> Bit(x, k) == Bit(x / 2, k - 1)
  {
    if k > 0 {
      HalveThenDivide(x, Pow2(k - 1));
    }
  }

  function Choice(f: (bool, bool) -> bool, x: int, y: int): int {
    Truth(f(x == 1, y == 1))
  }

  /** Combining bit by bit does so at every place. */
  lemma {:induction false} BitwiseBits(f: (bool, bool) -> bool, a: int, b: int, n: nat, k: nat)
    requires k < n
    ensures Bit(Bitwise(f, a, b, n), k) == Choice(f, Bit(a, k), Bit(b, k))
    decreases n
  {
    var c := Bitwise(f, a, b, n);
    var low := Choice(f, a % 2, b % 2);
    assert c == low + 2 * Bitwise(f, a / 2, b / 2, n - 1);
    assert c % 2 == low && c / 2 == Bitwise(f, a / 2, b / 2, n - 1);
    BitSteps(a, k);
    BitSteps(b, k);
    BitSteps(c, k);
    if k > 0 {
      BitwiseBits(f, a / 2, b / 2, n - 1, k - 1);
    }
  }

  lemma HalfOfSum(x: int, p: int)
    ensures (x + 2 * p) % 2 == x % 2 && (x + 2 * p) / 2 == x / 2 + p
  {
  }

  /** Bits below place `n` do not see multiples of 2^n. */
  lemma {:induction false} LowBits(x: int, c: int, n: nat, k: nat)
    requires k < n
    ensures Bit(x + c * Pow2(n), k) == Bit(x, k)
    decreases n
  {
    hide Bit;
    var p := c * Pow2(n - 1);
    assert c * Pow2(n) == 2 * p;
    BitSteps(x, k);
    BitSteps(x + 2 * p, k);
    HalfOfSum(x, p);
    if k > 0 {
      LowBits(x / 2, c, n - 1, k - 1);
    }
  }

  lemma WrapBits(x: int, k: nat)
    requires k < 32
    ensures Bit(Wrap(x), k) == Bit(x, k)
  {
    var c := (Wrap(x) - x) / 0x1_0000_0000;
    PowersOfTwo(0, 0);
    LowBits(x, c, 32, k);
  }

  /** Numbers that agree in their `n` low bits differ by a multiple of 2^n. */
  lemma {:induction false} BitsDetermine(x: int, y: int, n: nat)
    requires forall k :: 0 <= k < n ==> Bit(x, k) == Bit(y, k)
    ensures (x - y) % Pow2(n) == 0
    decreases n
  {
    if n > 0 {
      forall k | 0 <= k < n - 1
        ensures Bit(x / 2, k) == Bit(y / 2, k)
      {
        var next := k + 1;
        BitSteps(x, next);
        BitSteps(y, next);
        assert Bit(x, next) == Bit(y, next);
      }
      BitsDetermine(x / 2, y / 2, n - 1);
      BitSteps(x, 0);
      BitSteps(y, 0);
      assert Bit(x, 0) == Bit(y, 0);
      var d := (x / 2 - y / 2) / Pow2(n - 1);
      assert x / 2 - y / 2 == Pow2(n - 1) * d;
      assert x - y == 2 * (Pow2(n - 1) * d) == Pow2(n) * d;
      QuotientIs(x - y, Pow2(n), d, 0);
    }
  }

  // ---- the results ----

  lemma WrapInRange(x: int)
    ensures InRange(Wrap(x)) && SameModulo(Wrap(x), x)
    ensures InRange(x) ==> Wrap(x) == x
  {
  }

  lemma NegatedFactors(q: int, b: int)
    ensures -q * b == q * -b == -(q * b)
  {
  }

  /** The division of the absolute values, and the signs. */
  lemma TruncDivides(a: int, b: int)
    requires b != 0
    ensures Divides(a, b, TruncDiv(a, b), TruncRem(a, b))
  {
    var n, d := if a < 0 then -a else a, if b < 0 then -b else b;
    var q, r := n / d, n % d;
    assert n == q * d + r;
    NegatedFactors(q, b);
    assert TruncDiv(a, b) == if (a >= 0) == (b > 0) then q else -q;
    var t, u := TruncDiv(a, b), TruncRem(a, b);
    assert a == t * b + u;
    assert u == if a >= 0 then r else -r;
    RestIsSmall(a, b, t, u, r);
  }

  lemma RestIsSmall(a: int, b: int, t: int, u: int, r: int)
    requires 0 <= r && a == t * b + u && u == (if a >= 0 then r else -r) && r < Abs(b)
    ensures Divides(a, b, t, u)
  {
  }

  lemma AbsOfProduct(x: int, y: int)
    ensures Abs(x * y) == Abs(x) * Abs(y)
  {
  }

  lemma TwiceFits(x: nat, y: nat)
    requires y >= 2
    ensures 2 * x <= x * y
  {
  }

  /** A multiple of the divisor that leaves a rest with the sign of the dividend is not larger than the dividend. */
  lemma MultipleFits(a: int, p: int, r: int, d: nat)
    requires a == p + r && Abs(r) < d && (r > 0 ==> a > 0) && (r < 0 ==> a < 0) && (p == 0 || Abs(p) >= d)
    ensures Abs(p) <= Abs(a) && Abs(r) <= Abs(a)
  {
  }

  lemma QuotientInRange(a: int, b: int, q: int, r: int)
    requires InRange(a) && b != 0 && !(a == -0x8000_0000 && b == -1) && Divides(a, b, q, r)
    ensures InRange(q) && InRange(r)
  {
    if b == -1 {
      assert a == -q;
    } else {
      AbsOfProduct(q, b);
      MultipleIsFar(Abs(b), Abs(q));
      MultipleFits(a, q * b, r, Abs(b));
      if b == 1 {
        assert a == q;
      } else {
        TwiceFits(Abs(q), Abs(b));
      }
    }
  }

  /** Division truncates toward zero. */
  lemma DivisionTruncates(a: int, b: int)
    requires InRange(a) && InRange(b) && b != 0 && !(a == -0x8000_0000 && b == -1)
    ensures Divides(a, b, BinaryValue(Div, a, b), BinaryValue(Mod, a, b))
  {
    var q, r := TruncDiv(a, b), TruncRem(a, b);
    TruncDivides(a, b);
    hide TruncDiv, TruncRem, Wrap;
    QuotientInRange(a, b, q, r);
    WrapInRange(q);
    WrapInRange(r);
  }

  /** A bit of a result that is computed bit by bit. */
  lemma BitOfResult(f: (bool, bool) -> bool, a: int, b: int, k: nat)
    requires k < 32
    ensures Bit(Wrap(Bitwise(f, a, b, 32)), k) == Choice(f, Bit(a, k), Bit(b, k))
    ensures (Bit(a, k) == 0 || Bit(a, k) == 1) && (Bit(b, k) == 0 || Bit(b, k) == 1)
  {
    BitwiseBits(f, a, b, 32, k);
    WrapBits(Bitwise(f, a, b, 32), k);
  }

  lemma Conjunction(a: int, b: int)
    ensures IsResult(And, a, b, BitAnd(a, b))
  {
    hide Bitwise, Bit, Wrap;
    forall k | 0 <= k < 32
      ensures Bit(BitAnd(a, b), k) == Bit(a, k) * Bit(b, k)
    {
      BitOfResult((x, y) => x && y, a, b, k);
    }
  }

  lemma Disjunction(a: int, b: int)
    ensures IsResult(Or, a, b, BitOr(a, b))
  {
    hide Bitwise, Bit, Wrap;
    forall k | 0 <= k < 32
      ensures Bit(BitOr(a, b), k) == Bit(a, k) + Bit(b, k) - Bit(a, k) * Bit(b, k)
    {
      BitOfResult((x, y) => x || y, a, b, k);
    }
  }

  lemma ExclusiveOr(a: int, b: int)
    ensures IsResult(Xor, a, b, BitXor(a, b))
  {
    hide Bitwise, Bit, Wrap;
    forall k | 0 <= k < 32
      ensures Bit(BitXor(a, b), k) == (Bit(a, k) + Bit(b, k)) % 2
    {
      BitOfResult((x, y) => x != y, a, b, k);
    }
  }

  /** Shifting to the right divides by a power of two, downward. */
  lemma ShiftsDown(a: int, b: int)
    requires 0 <= b < 32
    ensures IsResult(Shr, a, b, BinaryValue(Shr, a, b))
  {
    var p := Pow2(b);
    assert a == p * (a / p) + a % p;
    assert (a / p + 1) * p == p * (a / p) + p;
  }

  lemma ShiftsUp(a: int, b: int)
    requires 0 <= b < 32
    ensures IsResult(Shl, a, b, BinaryValue(Shl, a, b))
  {
    var x := a * Pow2(b);
    hide Pow2, Wrap;
    WrapInRange(x);
  }

  lemma Wraps(op: BinaryOp, a: int, b: int)
    requires op == Add || op == Sub || op == Mul
    ensures IsResult(op, a, b, BinaryValue(op, a, b))
  {
    var x := if op == Add then a + b else if op == Sub then a - b else a * b;
    hide Wrap;
    WrapInRange(x);
  }

  /** Every operator gives what its definition in numbers asks for. */
  lemma OperatorResult(op: BinaryOp, a: int, b: int)
    requires InRange(a) && InRange(b) && Defined(op, a, b)
    ensures IsResult(op, a, b, BinaryValue(op, a, b))
  {
    hide Pow2, Wrap, Bit, Bitwise, TruncDiv, TruncRem, ShiftLeft, ShiftRight, BitAnd, BitOr, BitXor;
    match op
    case Add => Wraps(op, a, b);
    case Sub => Wraps(op, a, b);
    case Mul => Wraps(op, a, b);
    case Div => DivisionTruncates(a, b);
    case Mod => DivisionTruncates(a, b);
    case And => Conjunction(a, b);
    case Or => Disjunction(a, b);
    case Xor => ExclusiveOr(a, b);
    case Shl => ShiftsUp(a, b);
    case Shr => ShiftsDown(a, b);
    case _ =>
  }

  // ---- only one result ----

  lemma InRangeOnce(c: int, c': int, x: int)
    requires InRange(c) && InRange(c') && SameModulo(c, x) && SameModulo(c', x)
    ensures c == c'
  {
    assert (c - x) - (c' - x) == c - c';
  }

  lemma QuotientOnce(a: int, b: int, q: int, r: int, q': int, r': int)
    requires Divides(a, b, q, r) && Divides(a, b, q', r')
    ensures q == q' && r == r'
  {
    var k := q - q';
    assert k * b == q * b - q' * b == r' - r;
    AbsOfProduct(k, b);
    MultipleIsFar(Abs(b), Abs(k));
  }

  lemma BitsOnce(c: int, c': int)
    requires InRange(c) && InRange(c') && forall k :: 0 <= k < 32 ==> Bit(c, k) == Bit(c', k)
    ensures c == c'
  {
    PowersOfTwo(0, 0);
    BitsDetermine(c, c', 32);
  }

  lemma ShiftOnce(a: int, p: int, c: int, c': int)
    requires p > 0 && c * p <= a < (c + 1) * p && c' * p <= a < (c' + 1) * p
    ensures c == c'
  {
    assert (c + 1) * p == c * p + p && (c' + 1) * p == c' * p + p;
    var k := c - c';
    assert p * k == c * p - c' * p;
    MultipleIsFar(p, k);
  }

  /** There is one result only. */
  lemma ResultIsUnique(op: BinaryOp, a: int, b: int, c: int, c': int)
    requires IsResult(op, a, b, c) && IsResult(op, a, b, c')
    ensures c == c'
  {
    hide Pow2, Bit, InRange, SameModulo, Divides;
    match op
    case Add => InRangeOnce(c, c', a + b);
    case Sub => InRangeOnce(c, c', a - b);
    case Mul => InRangeOnce(c, c', a * b);
    case Div =>
      var r, r' :| Divides(a, b, c, r) && Divides(a, b, c', r');
      QuotientOnce(a, b, c, r, c', r');
    case Mod =>
      var q, q' :| Divides(a, b, q, c) && Divides(a, b, q', c');
      QuotientOnce(a, b, q, c, q', c');
    case And => BitsOnce(c, c');
    case Or => BitsOnce(c, c');
    case Xor => BitsOnce(c, c');
    case Shl => InRangeOnce(c, c', a * Pow2(b));
    case Shr => ShiftOnce(a, Pow2(b), c, c');
    case _ =>
  }

  /** The unary operators: negation wraps around, inversion gives the number below the negated one. */
  lemma UnaryResult(op: UnaryOp, a: int)
    requires InRange(a)
    ensures op == Pos ==> UnaryValue(op, a) == a
    ensures op == Neg ==> UnaryValue(op, a) == if a == -0x8000_0000 then a else -a
    ensures op == Not ==> UnaryValue(op, a) == if a == 0 then 1 else 0
    ensures op == Inv ==> UnaryValue(op, a) == -a - 1
  {
    hide BitXor, Wrap;
    if op == Neg {
      WrapInRange(-a);
      if a == -0x8000_0000 {
        Wrapped(-a);
      }
    } else if op == Inv {
      InvertsBits(a);
    }
  }

  lemma Wrapped(x: int)
    requires x == 0x8000_0000
    ensures Wrap(x) == -x
  {
  }

  lemma InvertsBits(a: int)
    requires InRange(a)
    ensures BitXor(a, -1) == -a - 1
  {
    hide BitXor, Bit;
    ExclusiveOr(a, -1);
    forall k | 0 <= k < 32
      ensures Bit(BitXor(a, -1), k) == Bit(-a - 1, k)
    {
      Inverted(a, k);
    }
    BitsOnce(BitXor(a, -1), -a - 1);
  }

  /** Every bit of `-1` is set, and `-a - 1` has the bits that `a` has not. */
  lemma {:induction false} Inverted(a: int, k: nat)
    ensures Bit(-1, k) == 1 && Bit(-a - 1, k) == 1 - Bit(a, k)
    ensures (Bit(a, k) + 1) % 2 == 1 - Bit(a, k)
    decreases k
  {
    BitSteps(-1, k);
    BitSteps(a, k);
    BitSteps(-a - 1, k);
    hide Bit;
    if k > 0 {
      assert (-a - 1) / 2 == -(a / 2) - 1;
      Inverted(a / 2, k - 1);
    }
  }
}
