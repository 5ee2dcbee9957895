/** 32-bit sequence numbers and clocks: the wrap-around difference of `_itimediff`,
    the serial-number order of section 3.2 of RFC 1982 it implements, and the choice
    between exact and wrapped arithmetic that the engine is written against. */
module SerialNumbers {

  const TWO16 := 0x1_0000
  const TWO31 := 0x8000_0000
  const TWO32 := 0x1_0000_0000

  type u8 = x: int | 0 <= x < 0x100
  type u16 = x: int | 0 <= x < 0x1_0000
  type u32 = x: int | 0 <= x < 0x1_0000_0000

  function Min(a: int, b: int): int { if a <= b then a else b }
  function Max(a: int, b: int): int { if a >= b then a else b }

  /** The value an unsigned 32-bit variable holds after being assigned `x`. */
  function U32(x: int): (r: u32)
    ensures 0 <= x < TWO32 ==> r == x
  {
    x % TWO32
  }

  /** Adding a multiple of 2^32 changes nothing. */
  lemma U32Shift(x: int, k: int)
    ensures U32(x + k * TWO32) == U32(x)
  {
    var q, r := x / TWO32, x % TWO32;
    assert x + k * TWO32 == (q + k) * TWO32 + r;
  }

  lemma U32Plus(x: int, k: int)
    ensures U32(U32(x) + k) == U32(x + k)
  {
    var q := x / TWO32;
    assert U32(x) + k == x + k + (-q) * TWO32;
    U32Shift(x + k, -q);
  }

  lemma U32Minus(x: int, y: int)
    ensures U32(U32(x) - U32(y)) == U32(x - y)
  {
    var q, p := x / TWO32, y / TWO32;
    assert U32(x) - U32(y) == x - y + (p - q) * TWO32;
    U32Shift(x - y, p - q);
  }

  /** Two numbers closer than 2^32 agree modulo 2^32 only when they are equal. */
  lemma U32Injective(x: int, y: int)
    requires -TWO32 < x - y < TWO32
    ensures U32(x) == U32(y) <==> x == y
  {
    if U32(x) == U32(y) {
      assert x - y == (x / TWO32 - y / TWO32) * TWO32;
    }
  }

  /** The signed 32-bit number congruent to `x`. */
  function I32(x: int): (d: int)
    ensures -TWO31 <= d < TWO31
    ensures -TWO31 <= x < TWO31 ==> d == x
  {
    U32Shift(x, 1);
    var d := U32(x);
    if d < TWO31 then d else d - TWO32
  }

  /** `(IINT32)(later - earlier)` on unsigned 32-bit operands. */
  function TimeDiff(later: int, earlier: int): (d: int)
    ensures -TWO31 <= d < TWO31
  {
    I32(later - earlier)
  }

  /** Adding the difference back leads to the later number. */
  lemma TimeDiffCongruent(later: int, earlier: int)
    ensures U32(earlier + TimeDiff(later, earlier)) == U32(later)
  {
    var x := later - earlier;
    var q := x / TWO32;
    assert U32(x) == x + (-q) * TWO32;
    var k := if U32(x) < TWO31 then -q else -q - 1;
    assert earlier + TimeDiff(later, earlier) == later + k * TWO32;
    U32Shift(later, k);
  }

  /** The wrapped difference is the true one exactly when the true one fits 32 signed bits. */
  lemma TimeDiffExact(x: int, y: int)
    ensures TimeDiff(U32(x), U32(y)) == x - y <==> -TWO31 <= x - y < TWO31
  {
    U32Minus(x, y);
    assert TimeDiff(U32(x), U32(y)) == I32(x - y);
  }

  /** The order of section 3.2 of RFC 1982 with SERIAL_BITS = 32. */
  predicate SerialLess(s1: u32, s2: u32) {
    || (s1 < s2 && s2 - s1 < TWO31)
    || (s1 > s2 && s1 - s2 > TWO31)
  }

  /** A negative difference is the RFC's "less than", plus the pairs 2^31 apart that the
      RFC leaves undefined: for those both differences are negative. */
  lemma TimeDiffIsSerialOrder(s1: u32, s2: u32)
    ensures TimeDiff(s1, s2) < 0 <==> SerialLess(s1, s2) || U32(s1 - s2) == TWO31
    ensures TimeDiff(s1, s2) > 0 <==> SerialLess(s2, s1)
    ensures TimeDiff(s1, s2) == 0 <==> s1 == s2
    ensures TimeDiff(s1, s2) < 0 && TimeDiff(s2, s1) < 0 <==> U32(s1 - s2) == TWO31
  {
    if s1 >= s2 {
      assert U32(s1 - s2) == s1 - s2;
      assert s1 > s2 ==> U32(s2 - s1) == s2 - s1 + TWO32;
    } else {
      assert U32(s1 - s2) == s1 - s2 + TWO32;
    }
  }

  /** Whether sequence numbers are unbounded integers or 32-bit counters. */
  datatype Arith = Exact | Wrapped {
    /** The value a sequence-number variable holds after being assigned `x`. */
    function Num(x: int): (r: int) {
      if this.Exact? then x else U32(x)
    }

    /** The difference by which two sequence numbers are compared. */
    function Diff(later: int, earlier: int): (d: int) {
      if this.Exact? then later - earlier else TimeDiff(later, earlier)
    }
  }

  /** Comparing images of two numbers less than 2^31 apart compares the numbers. */
  lemma DiffNear(x: int, y: int)
    requires -TWO31 <= x - y < TWO31
    ensures Wrapped.Diff(U32(x), U32(y)) == Exact.Diff(x, y)
  {
    TimeDiffExact(x, y);
  }
}
