/** Fixed-width machine integers as Go stores them: the widths of Go's integer kinds,
    the range a width admits, and the two's-complement wrap-around of Go's int64/uint64
    arithmetic and of reflect's SetInt/SetUint truncation. */
module TwosComplement {

  /** The bit widths of Go's integer kinds (int and uint are 64 bits wide). */
  type Width = w: nat | w == 8 || w == 16 || w == 32 || w == 64 witness 64

  /** 2^w, written out per width so that all arithmetic on it stays linear. */
  function Pow2(w: Width): (m: nat)
    ensures m > 0 && m % 2 == 0
  {
    if w == 8 then 0x100
    else if w == 16 then 0x1_0000
    else if w == 32 then 0x1_0000_0000
    else 0x1_0000_0000_0000_0000
  }

  /** 2^(w-1), the size of each half of the signed range. */
  function Half(w: Width): (h: nat)
    ensures h > 0 && 2 * h == Pow2(w)
  {
    if w == 8 then 0x80
    else if w == 16 then 0x8000
    else if w == 32 then 0x8000_0000
    else 0x8000_0000_0000_0000
  }

  const MinInt64: int := -0x8000_0000_0000_0000
  const MaxInt64: int := 0x7fff_ffff_ffff_ffff
  const MaxUint64: int := 0xffff_ffff_ffff_ffff

  /** x is representable as a signed integer of w bits (Go: !v.OverflowInt(x)). */
  predicate FitsSigned(x: int, w: Width) {
    -(Half(w) as int) <= x < Half(w)
  }

  /** x is representable as an unsigned integer of w bits (Go: !v.OverflowUint(x)). */
  predicate FitsUnsigned(x: int, w: Width) {
    0 <= x < Pow2(w)
  }

  /** The w-bit unsigned value congruent to x: Go's uintN(x) and uint64 overflow. It is
      reached by adding or subtracting 2^w until the value is in range; its closed form,
      x % 2^w, is WrapUnsignedIsMod. */
  function WrapUnsigned(x: int, w: Width): (r: int)
    ensures FitsUnsigned(r, w)
    ensures FitsUnsigned(x, w) ==> r == x
    decreases if x < 0 then Pow2(w) - x else x
  {
    if x < 0 then WrapUnsigned(x + Pow2(w), w)
    else if x < Pow2(w) then x
    else WrapUnsigned(x - Pow2(w), w)
  }

  /** The w-bit two's-complement value congruent to x: what Go's intN(x) conversion,
      reflect's SetInt on a w-bit target, and int64 overflow produce. Its closed form is
      WrapSignedIsMod. */
  function WrapSigned(x: int, w: Width): (r: int)
    ensures FitsSigned(r, w)
    ensures FitsSigned(x, w) ==> r == x
    decreases if x < 0 then -x else x + 1
  {
    if x < -(Half(w) as int) then WrapSigned(x + Pow2(w), w)
    else if x < Half(w) then x
    else WrapSigned(x - Pow2(w), w)
  }

  lemma {:induction false} WrapUnsignedIsMod(x: int, w: Width)
    ensures WrapUnsigned(x, w) == x % Pow2(w)
    decreases if x < 0 then Pow2(w) - x else x
  {
    var m := Pow2(w);
    if x < 0 {
      WrapUnsignedIsMod(x + m, w);
      ModAddMultiple(x, 1, m);
    } else if x >= m {
      WrapUnsignedIsMod(x - m, w);
      ModAddMultiple(x - m, 1, m);
    }
  }

  lemma {:induction false} WrapSignedIsMod(x: int, w: Width)
    ensures WrapSigned(x, w) == (x + Half(w)) % Pow2(w) - Half(w)
    decreases if x < 0 then -x else x + 1
  {
    var m, h := Pow2(w), Half(w);
    assert m == 2 * h;
    if x < -(h as int) {
      WrapSignedIsMod(x + m, w);
      ModAddMultiple(x + h, 1, m);
    } else if x >= h {
      WrapSignedIsMod(x - m, w);
      ModAddMultiple(x - m + h, 1, m);
    }
  }

  // ---------------------------------------------------------------------------
  // Congruence: wrapping commutes with the ring operations.
  // ---------------------------------------------------------------------------

  lemma {:induction false} ModAddMultiple(y: int, k: int, m: int)
    requires m > 0
    ensures (y + k * m) % m == y % m
  {
    var q, r := y / m, y % m;
    assert y == q * m + r;
    assert y + k * m == (q + k) * m + r;
    EuclidUnique(y + k * m, q + k, r, m);
  }

  lemma EuclidUnique(x: int, q: int, r: int, m: int)
    requires m > 0 && 0 <= r < m && x == q * m + r
    ensures x % m == r
  {
    var q', r' := x / m, x % m;
    assert (q - q') * m == r' - r;
    MultipleInOpenInterval(q - q', m);
  }

  /** The only multiple of m strictly between -m and m is zero. */
  lemma {:induction false} MultipleInOpenInterval(d: int, m: int)
    requires m > 0 && -m < d * m < m
    ensures d == 0
  {
    if d > 0 {
      ProductAtLeast(d, m);
      assert false;
    } else if d < 0 {
      assert false;
    }
  }

  lemma {:induction false} ProductAtLeast(a: nat, b: nat)
    requires a >= 1
    ensures a * b >= b
  {
    if a > 1 {
      ProductAtLeast(a - 1, b);
      assert a * b == (a - 1) * b + b;
    }
  }

  /** Wrapping subtracts a multiple of 2^w. */
  lemma WrapSignedIsShift(x: int, w: Width)
    ensures WrapSigned(x, w) == x - ((x + Half(w)) / Pow2(w)) * Pow2(w)
  {
    WrapSignedIsMod(x, w);
  }

  lemma WrapUnsignedIsShift(x: int, w: Width)
    ensures WrapUnsigned(x, w) == x - (x / Pow2(w)) * Pow2(w)
  {
    WrapUnsignedIsMod(x, w);
  }

  /** Adding a multiple of 2^w does not change the wrapped value. */
  lemma {:induction false} WrapSignedAddMultiple(x: int, k: int, w: Width)
    ensures WrapSigned(x + k * Pow2(w), w) == WrapSigned(x, w)
  {
    assert x + k * Pow2(w) + Half(w) == (x + Half(w)) + k * Pow2(w);
    ModAddMultiple(x + Half(w), k, Pow2(w));
    WrapSignedIsMod(x + k * Pow2(w), w);
    WrapSignedIsMod(x, w);
  }

  lemma {:induction false} WrapUnsignedAddMultiple(x: int, k: int, w: Width)
    ensures WrapUnsigned(x + k * Pow2(w), w) == WrapUnsigned(x, w)
  {
    ModAddMultiple(x, k, Pow2(w));
    WrapUnsignedIsMod(x + k * Pow2(w), w);
    WrapUnsignedIsMod(x, w);
  }

  lemma {:induction false} WrapSignedAdd(a: int, b: int, w: Width)
    ensures WrapSigned(WrapSigned(a, w) + b, w) == WrapSigned(a + b, w)
  {
    var q := (a + Half(w)) / Pow2(w);
    WrapSignedIsShift(a, w);
    assert WrapSigned(a, w) + b == (a + b) + (-q) * Pow2(w);
    WrapSignedAddMultiple(a + b, -q, w);
  }

  lemma {:induction false} WrapSignedMul(a: int, b: int, w: Width)
    ensures WrapSigned(WrapSigned(a, w) * b, w) == WrapSigned(a * b, w)
  {
    var q := (a + Half(w)) / Pow2(w);
    WrapSignedIsShift(a, w);
    ShiftedProduct(a, q, Pow2(w), b);
    WrapSignedAddMultiple(a * b, -q * b, w);
  }

  lemma {:induction false} WrapUnsignedAdd(a: int, b: int, w: Width)
    ensures WrapUnsigned(WrapUnsigned(a, w) + b, w) == WrapUnsigned(a + b, w)
  {
    var q := a / Pow2(w);
    WrapUnsignedIsShift(a, w);
    assert WrapUnsigned(a, w) + b == (a + b) + (-q) * Pow2(w);
    WrapUnsignedAddMultiple(a + b, -q, w);
  }

  lemma {:induction false} WrapUnsignedMul(a: int, b: int, w: Width)
    ensures WrapUnsigned(WrapUnsigned(a, w) * b, w) == WrapUnsigned(a * b, w)
  {
    var q := a / Pow2(w);
    WrapUnsignedIsShift(a, w);
    ShiftedProduct(a, q, Pow2(w), b);
    WrapUnsignedAddMultiple(a * b, -q * b, w);
  }

  lemma ShiftedProduct(a: int, q: int, m: int, b: int)
    ensures (a - q * m) * b == a * b + (-q * b) * m
  {
  }

  /** Truncating an int64 to a narrower width is truncating the mathematical value. */
  lemma {:induction false} WrapSignedNarrow(x: int, w: Width)
    ensures WrapSigned(WrapSigned(x, 64), w) == WrapSigned(x, w)
  {
    var q := (x + Half(64)) / Pow2(64);
    WrapSignedIsShift(x, 64);
    var f := Pow2(64) / Pow2(w);
    assert Pow2(64) == f * Pow2(w);
    assert WrapSigned(x, 64) == x + (-q * f) * Pow2(w);
    WrapSignedAddMultiple(x, -q * f, w);
  }

  lemma {:induction false} WrapUnsignedNarrow(x: int, w: Width)
    ensures WrapUnsigned(WrapUnsigned(x, 64), w) == WrapUnsigned(x, w)
  {
    var q := x / Pow2(64);
    WrapUnsignedIsShift(x, 64);
    var f := Pow2(64) / Pow2(w);
    assert Pow2(64) == f * Pow2(w);
    assert WrapUnsigned(x, 64) == x + (-q * f) * Pow2(w);
    WrapUnsignedAddMultiple(x, -q * f, w);
  }
}
