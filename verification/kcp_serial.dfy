/** 32-bit serial-number arithmetic: the comparison `_itimediff` of ikcp.c and the
    wrap-around of its counters.

    Sequence-number arithmetic takes an `Arith` argument, so that each protocol
    function is written once and can be read twice: with `Machine32` it is the C
    code, with `Unbounded` it is the protocol on integers that never wrap. */
module KcpSerial {
  const TWO16 := 0x1_0000
  const TWO31 := 0x8000_0000
  const TWO32 := 0x1_0000_0000

  type byte = x: int | 0 <= x < 256

  datatype Arith = Machine32 | Unbounded

  /** Conversion to IUINT32. */
  function U32(x: int): (r: int)
    ensures 0 <= r < TWO32
  {
    x % TWO32
  }

  /** Conversion to IINT32: the value congruent to x in [-2^31, 2^31). */
  function I32(x: int): (r: int)
    ensures -TWO31 <= r < TWO31
  {
    if U32(x) < TWO31 then U32(x) else U32(x) - TWO32
  }

  /** `_itimediff(later, earlier)`. */
  function TimeDiff(later: int, earlier: int): (r: int)
    ensures -TWO31 <= r < TWO31
  {
    I32(later - earlier)
  }

  function SeqAdd(m: Arith, a: int, k: int): int {
    if m.Machine32? then U32(a + k) else a + k
  }

  function SeqDiff(m: Arith, a: int, b: int): int {
    if m.Machine32? then TimeDiff(a, b) else a - b
  }

  function Min(a: int, b: int): int { if a <= b then a else b }

  function Max(a: int, b: int): int { if a >= b then a else b }

  /** C's `/ 2` on a signed operand: truncation toward zero. */
  function Half(x: int): int { if x >= 0 then x / 2 else -((-x) / 2) }

  /** The wrapped comparison tells the true distance of two unbounded numbers exactly
      when that distance fits in a signed 32-bit word. */
  lemma SerialAgrees(a: int, b: int)
    ensures SeqDiff(Machine32, U32(a), U32(b)) == SeqDiff(Unbounded, a, b) <==> -TWO31 <= a - b < TWO31
  {
    var qa, qb := a / TWO32, b / TWO32;
    assert U32(a) == a - qa * TWO32 && U32(b) == b - qb * TWO32;
    WrapShift(a - b, qb - qa);
    assert U32(a) - U32(b) == (a - b) + (qb - qa) * TWO32;
  }

  lemma WrapShift(x: int, k: int)
    ensures U32(x + k * TWO32) == U32(x)
  {
    var q := x / TWO32;
    assert x + k * TWO32 == (q + k) * TWO32 + x % TWO32;
  }

  /** Wrapped addition is addition of unbounded numbers, wrapped once. */
  lemma WrapAdd(a: int, k: int)
    ensures SeqAdd(Machine32, U32(a), k) == U32(SeqAdd(Unbounded, a, k))
  {
    WrapShift(a + k, -(a / TWO32));
  }

  /** Wrapped numbers less than a full cycle apart are equal only when the unbounded
      numbers are. */
  lemma WrapInjective(a: int, b: int)
    requires -TWO32 < a - b < TWO32
    ensures U32(a) == U32(b) <==> a == b
  {
  }

  lemma WrapSub(a: int, b: int)
    requires 0 <= a - b < TWO32
    ensures SeqAdd(Machine32, U32(a), -U32(b)) == SeqAdd(Unbounded, a, -b)
  {
    var qa, qb := a / TWO32, b / TWO32;
    WrapShift(a - b, qb - qa);
    assert U32(a) - U32(b) == (a - b) + (qb - qa) * TWO32;
  }
}
