/** Fixed-width machine integers and the bit operations the ring-buffer
    index protocol is written with. Integers are unbounded here; each width
    is a subset type, and every bit operation is defined on naturals so that
    its relation to ordinary arithmetic can be proved. */
module Bits {

  const U32_LIMIT: int := 0x1_0000_0000

  type u8 = x: int | 0 <= x < 0x100
  type u16 = x: int | 0 <= x < 0x1_0000
  type u32 = x: int | 0 <= x < 0x1_0000_0000
  type u64 = x: int | 0 <= x < 0x1_0000_0000_0000_0000
  type i32 = x: int | -0x8000_0000 <= x < 0x8000_0000

  /** Unsigned 32-bit addition as a release build performs it (wrap-around). */
  function WrappingAdd32(a: u32, b: u32): (r: u32)
    ensures a + b < U32_LIMIT ==> r == a + b
    ensures a + b >= U32_LIMIT ==> r == a + b - U32_LIMIT
  {
    (a + b) % U32_LIMIT
  }

  /** Adding one to a value reduced modulo 2^32, with wrap-around, is the
      successor reduced modulo 2^32. */
  lemma WrapSucc(x: nat)
    ensures WrappingAdd32(x % U32_LIMIT, 1) == (x + 1) % U32_LIMIT
  {
    var t, r := x / U32_LIMIT, x % U32_LIMIT;
    assert x == U32_LIMIT * t + r;
    if r + 1 < U32_LIMIT {
      ModUnique(x + 1, U32_LIMIT, t, r + 1);
    } else {
      ModUnique(x + 1, U32_LIMIT, t + 1, 0);
    }
  }

  function Pow2(k: nat): (r: nat)
    ensures r >= 1
  {
    if k == 0 then 1 else 2 * Pow2(k - 1)
  }

  /** Bitwise AND of two naturals, bit by bit from the least significant end. */
  function BitAnd(a: nat, b: nat): (r: nat)
    ensures r <= a && r <= b
    decreases a
  {
    if a == 0 || b == 0 then 0
    else 2 * BitAnd(a / 2, b / 2) + (if a % 2 == 1 && b % 2 == 1 then 1 else 0)
  }

  /** m is of the form 2^k - 1: all its set bits are the low ones. This is what
      makes `index_mask + 1` a power of two. */
  predicate IsLowMask(m: nat)
    decreases m
  {
    m == 0 || (m % 2 == 1 && IsLowMask(m / 2))
  }

  /** `x << s` on a u32: the bits shifted past bit 31 are lost. */
  function Shl32(x: u32, s: nat): (r: u32)
    requires s < 32
    ensures x * Pow2(s) < U32_LIMIT ==> r == x * Pow2(s)
  {
    (x * Pow2(s)) % U32_LIMIT
  }

  /** `x >> s` on a u32 (logical shift). */
  function Shr32(x: u32, s: nat): (r: u32)
    requires s < 32
    ensures r <= x
  {
    QuotientAtMost(x, Pow2(s));
    x / Pow2(s)
  }

  lemma MulNonneg(a: int, b: int)
    requires a >= 0 && b >= 0
    ensures a * b >= 0
  {
  }

  lemma QuotientAtMost(x: nat, d: nat)
    requires d >= 1
    ensures 0 <= x / d <= x
  {
    var q, r := x / d, x % d;
    assert x == d * q + r;
    MulNonneg(d - 1, q);
    assert d * q == q + (d - 1) * q;
  }

  lemma ModOfDouble(x: nat, q: nat)
    requires q >= 1
    ensures x % (2 * q) == 2 * ((x / 2) % q) + x % 2
  {
    var a, b := x / 2, x % 2;
    var t, s := a / q, a % q;
    assert x == 2 * a + b;
    assert a == q * t + s;
    assert x == (2 * q) * t + (2 * s + b);
    assert 0 <= 2 * s + b < 2 * q;
    ModUnique(x, 2 * q, t, 2 * s + b);
  }

  lemma ModUnique(x: int, d: int, t: int, r: int)
    requires d >= 1 && 0 <= r < d && x == d * t + r
    ensures x % d == r && x / d == t
  {
    var k := x / d - t;
    assert d * k == r - x % d;
    MultipleOfAtLeast(d, k);
  }

  lemma MultipleOfAtLeast(d: int, k: int)
    requires d >= 1
    ensures k >= 1 ==> d * k >= d
    ensures k <= -1 ==> d * k <= -d
  {
  }

  /** Masking with a low mask is reduction modulo the mask plus one: this is
      why `(x + 1) & index_mask` walks the ring of `index_mask + 1` slots. */
  lemma {:induction false} MaskIsMod(x: nat, m: nat)
    requires IsLowMask(m)
    ensures BitAnd(x, m) == x % (m + 1)
    decreases m
  {
    if m == 0 {
    } else if x == 0 {
    } else {
      var h := m / 2;
      assert m + 1 == 2 * (h + 1);
      MaskIsMod(x / 2, h);
      ModOfDouble(x, h + 1);
    }
  }

  /** A masked value is a valid index: it never exceeds the mask. */
  lemma MaskedBelowMask(x: nat, m: nat)
    requires IsLowMask(m)
    ensures BitAnd(x, m) <= m
  {
    MaskIsMod(x, m);
  }

  /** Shifting a value left and back right is the identity when nothing is
      shifted out of the 32 bits. */
  lemma ShlThenShr(x: u32, s: nat)
    requires s < 32 && x * Pow2(s) < U32_LIMIT
    ensures Shr32(Shl32(x, s), s) == x
  {
    ModUnique(x * Pow2(s), Pow2(s), x, 0);
  }
}
