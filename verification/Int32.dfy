/** 32-bit two's complement arithmetic, as the language and the generated code use it. */
module Int32 {
  const TWO_32: int := 0x1_0000_0000
  const TWO_31: int := 0x8000_0000

  /** The representative of `x` modulo 2^32 in the signed range. */
  function Wrap(x: int): (r: int)
    ensures -TWO_31 <= r < TWO_31
    ensures (r - x) % TWO_32 == 0
  {
    var m := x % TWO_32;
    assert (m - x) % TWO_32 == 0 by { assert x == TWO_32 * (x / TWO_32) + m; ModOfMultiple(-(x / TWO_32)); }
    assert (m - TWO_32 - x) % TWO_32 == 0 by { assert x == TWO_32 * (x / TWO_32) + m; ModOfMultiple(-(x / TWO_32) - 1); }
    if m < TWO_31 then m else m - TWO_32
  }

  lemma ModOfMultiple(k: int)
    ensures (TWO_32 * k) % TWO_32 == 0
  {
  }

  /** Division truncates toward zero; the result for a zero divisor is of no interest. */
  function TruncDiv(a: int, b: int): int {
    if b == 0 then 0
    else if a >= 0 then a / b
    else if b > 0 then -((-a) / b)
    else (-a) / (-b)
  }

  function TruncRem(a: int, b: int): int {
    if b == 0 then 0 else a - TruncDiv(a, b) * b
  }

  function Truth(b: bool): int {
    if b then 1 else 0
  }

  /** The `n` low bits of `a` and of `b`, combined bit by bit; `/ 2` drops the lowest bit of a negative number, too. */
  function Bitwise(f: (bool, bool) -> bool, a: int, b: int, n: nat): int
    decreases n
  {
    if n == 0 then 0 else Truth(f(a % 2 == 1, b % 2 == 1)) + 2 * Bitwise(f, a / 2, b / 2, n - 1)
  }

  function BitAnd(a: int, b: int): int {
    Wrap(Bitwise((x, y) => x && y, a, b, 32))
  }

  function BitOr(a: int, b: int): int {
    Wrap(Bitwise((x, y) => x || y, a, b, 32))
  }

  function BitXor(a: int, b: int): int {
    Wrap(Bitwise((x, y) => x != y, a, b, 32))
  }

  function Pow2(n: nat): (r: int)
    ensures r > 0
  {
    if n == 0 then 1 else 2 * Pow2(n - 1)
  }

  /** Shifts by less than the width; other shifts are of no interest. */
  function ShiftLeft(a: int, b: int): int {
    if 0 <= b < 32 then Wrap(a * Pow2(b)) else 0
  }

  function ShiftRight(a: int, b: int): int {
    if 0 <= b < 32 then a / Pow2(b) else 0
  }
}
