/**
 * Fixed-width integer arithmetic of the C kernels.
 *
 * The dense kernels compute on 32-bit `int` and `unsigned int` values. Their
 * additions and multiplications wrap around modulo 2^32 (two's complement for
 * `int`); this module states that reduction explicitly over unbounded `int`.
 */
module Words {
  import opened Arith

  const TWO32: int := 0x1_0000_0000
  const TWO31: int := 0x8000_0000

  /** A C `unsigned int` value. */
  type u32 = x: int | 0 <= x < 0x1_0000_0000

  /** A C `int` value (32-bit two's complement). */
  type i32 = x: int | -0x8000_0000 <= x < 0x8000_0000

  /** `x` and `y` denote the same 32-bit word. */
  predicate Congruent(x: int, y: int) {
    (x - y) % TWO32 == 0
  }

  /** Adding a multiple of 2^32 does not change the remainder. */
  lemma ShiftMod(x: int, k: int)
    ensures (x + k * TWO32) % TWO32 == x % TWO32
  {
    var q := x / TWO32;
    assert q * TWO32 <= x < q * TWO32 + TWO32;
    DivIsQuotient(x + k * TWO32, TWO32, q + k);
  }

  /** Congruent numbers differ by a multiple of 2^32. */
  lemma CongruentShift(x: int, y: int)
    requires Congruent(x, y)
    ensures x % TWO32 == y % TWO32
  {
    var k := (x - y) / TWO32;
    assert x == y + k * TWO32;
    ShiftMod(y, k);
  }

  /** Every number is congruent to its remainder. */
  lemma CongruentMod(x: int)
    ensures Congruent(x, x % TWO32) && Congruent(x, x % TWO32 - TWO32)
  {
    var q := x / TWO32;
    assert x - x % TWO32 == q * TWO32;
    ShiftMod(0, q);
    assert x - (x % TWO32 - TWO32) == (q + 1) * TWO32;
    ShiftMod(0, q + 1);
  }

  /** Conversion of a mathematical integer to `unsigned int`. */
  function WrapU(x: int): (r: u32)
    ensures Congruent(x, r)
    ensures 0 <= x < TWO32 ==> r == x
  {
    CongruentMod(x);
    x % TWO32
  }

  /** Conversion of a mathematical integer to `int` (two's complement wrap-around). */
  function WrapS(x: int): (r: i32)
    ensures Congruent(x, r)
    ensures -TWO31 <= x < TWO31 ==> r == x
  {
    CongruentMod(x);
    var w := x % TWO32;
    if w < TWO31 then w else w - TWO32
  }

  /** Congruent numbers wrap to the same word, in either interpretation. */
  lemma CongruentWrap(x: int, y: int)
    requires Congruent(x, y)
    ensures WrapU(x) == WrapU(y) && WrapS(x) == WrapS(y)
  {
    CongruentShift(x, y);
  }

  /** Congruence is preserved by adding the same number on both sides. */
  lemma CongruentAdd(x: int, y: int, b: int)
    requires Congruent(x, y)
    ensures Congruent(x + b, y + b)
  {
    assert (x + b) - (y + b) == x - y;
  }

  /** Wrapping an intermediate sum does not change the final word. */
  lemma WrapUAddLeft(a: int, b: int)
    ensures WrapU(WrapU(a) + b) == WrapU(a + b)
    ensures WrapU(WrapS(a) + b) == WrapU(a + b)
  {
    WrapAddLeft(a, b);
    CongruentWrap(WrapU(a) + b, a + b);
    CongruentWrap(WrapS(a) + b, a + b);
  }

  lemma WrapSAddLeft(a: int, b: int)
    ensures WrapS(WrapS(a) + b) == WrapS(a + b)
    ensures WrapS(WrapU(a) + b) == WrapS(a + b)
  {
    WrapAddLeft(a, b);
    CongruentWrap(WrapS(a) + b, a + b);
    CongruentWrap(WrapU(a) + b, a + b);
  }

  lemma WrapAddLeft(a: int, b: int)
    ensures Congruent(WrapU(a) + b, a + b) && Congruent(WrapS(a) + b, a + b)
  {
    Symmetric(a, WrapU(a));
    CongruentAdd(WrapU(a), a, b);
    Symmetric(a, WrapS(a));
    CongruentAdd(WrapS(a), a, b);
  }

  lemma Symmetric(x: int, y: int)
    requires Congruent(x, y)
    ensures Congruent(y, x)
  {
    var k := (x - y) / TWO32;
    assert x - y == k * TWO32;
    assert y - x == (-k) * TWO32;
    ShiftMod(0, -k);
  }
}
