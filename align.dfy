/** `align_to`: rounding a value up to a boundary with the bitmask
    `(value + align - 1) & ~(align - 1)` on Python's unbounded
    two's-complement integers. */
module Align {

  /** `x & m` for a mask `m >= 0`, bit by bit. Dafny's `/ 2` and `% 2` on a
      negative `x` are floor division and a non-negative remainder, which is
      exactly Python's arithmetic shift and low bit. */
  function AndMask(x: int, m: nat): (r: nat)
    ensures r <= m
    decreases m
  {
    if m == 0 then 0
    else 2 * AndMask(x / 2, m / 2) + (if x % 2 == 1 && m % 2 == 1 then 1 else 0)
  }

  predicate IsPow2(a: int)
    decreases if a > 0 then a else 0
  {
    a == 1 || (a > 1 && a % 2 == 0 && IsPow2(a / 2))
  }

  /** `align_to(value, align)`. `x & ~m` equals `x - (x & m)`, since the
      two masks select complementary bits of `x`. */
  function AlignTo(value: int, align: int): (r: int)
    ensures align <= 0 ==> r == value
  {
    if align <= 0 then value
    else
      var x := value + align - 1;
      x - AndMask(x, align - 1)
  }

  /** For a power of two the bitmask form is the division form. */
  lemma AlignToDivForm(value: int, align: int)
    requires IsPow2(align)
    ensures AlignTo(value, align) == (value + align - 1) / align * align
  {
    var x := value + align - 1;
    PowPositive(align);
    assert AlignTo(value, align) == x - AndMask(x, align - 1);
    AndMaskLowBits(x, align);
    RoundDown(x, align);
  }

  lemma PowPositive(a: int)
    requires IsPow2(a)
    ensures a >= 1
  {
  }

  /** Removing the remainder leaves the quotient's multiple. */
  lemma RoundDown(x: int, a: int)
    requires a > 0
    ensures x - x % a == x / a * a
  {
  }

  /** For a power of two `a`, the mask `a - 1` keeps the remainder modulo `a`. */
  lemma {:induction false} AndMaskLowBits(x: int, a: int)
    requires IsPow2(a)
    ensures AndMask(x, a - 1) == x % a
    decreases a
  {
    if a > 1 {
      var h := a / 2;
      AndMaskStep(x, h);
      AndMaskLowBits(x / 2, h);
      ModHalves(x, h);
    }
  }

  /** One unfolding of `AndMask` for the mask `2h - 1`. */
  lemma AndMaskStep(x: int, h: int)
    requires h > 0
    ensures AndMask(x, 2 * h - 1) == 2 * AndMask(x / 2, h - 1) + x % 2
  {
    assert (2 * h - 1) / 2 == h - 1 && (2 * h - 1) % 2 == 1;
  }

  /** The remainder modulo `2h` from the low bit and the remainder of the half. */
  lemma ModHalves(x: int, h: int)
    requires h > 0
    ensures x % (2 * h) == 2 * ((x / 2) % h) + x % 2
  {
    var q, b := x / 2, x % 2;
    var k, s := q / h, q % h;
    assert x == 2 * q + b;
    assert q == h * k + s;
    Double(h, k);
    ModUnique(x, 2 * h, k, 2 * s + b);
  }

  lemma Double(h: int, k: int)
    ensures (2 * h) * k == 2 * (h * k)
  {
  }

  /** Euclidean remainder is determined by any decomposition in range. */
  lemma ModUnique(x: int, a: int, k: int, r: int)
    requires a > 0 && 0 <= r < a && x == a * k + r
    ensures x % a == r && x / a == k
  {
    var k', r' := x / a, x % a;
    assert x == a * k' + r';
    MulSub(a, k', k);
    if k' > k {
      MulAtLeast(a, k' - k);
    } else if k' < k {
      MulAtLeast(a, k - k');
      MulSub(a, k, k');
    }
  }

  lemma MulSub(a: int, p: int, q: int)
    ensures a * (p - q) == a * p - a * q
  {
  }

  lemma {:induction false} MulAtLeast(a: int, d: int)
    requires a > 0 && d >= 1
    ensures a * d >= a
  {
    if d > 1 {
      MulAtLeast(a, d - 1);
      MulSub(a, d, 1);
    }
  }

  /** The aligned value is a multiple of `align` and the least one at or above
      `value`. */
  lemma AlignToBounds(value: int, align: int)
    requires IsPow2(align)
    ensures AlignTo(value, align) % align == 0
    ensures value <= AlignTo(value, align) < value + align
  {
    var x := value + align - 1;
    var q, y := x / align, AlignTo(value, align);
    PowPositive(align);
    assert y == q * align by {
      AlignToDivForm(value, align);
    }
    assert y % align == 0 by {
      ModUnique(y, align, q, 0);
    }
    assert value <= y < value + align by {
      RoundDown(x, align);
    }
  }

  /** A value already on the boundary is returned unchanged. */
  lemma AlignToAligned(value: int, align: int)
    requires IsPow2(align) && value % align == 0
    ensures AlignTo(value, align) == value
  {
    var x := value + align - 1;
    var k := value / align;
    PowPositive(align);
    RoundDown(value, align);
    ModUnique(x, align, k, align - 1);
    AlignToDivForm(value, align);
  }
  /** Aligning twice is aligning once. */
  lemma AlignToIdempotent(value: int, align: int)
    requires IsPow2(align)
    ensures AlignTo(AlignTo(value, align), align) == AlignTo(value, align)
  {
    AlignToBounds(value, align);
    AlignToAligned(AlignTo(value, align), align);
  }

  const BOUNDARY: int := 4096

  lemma BoundaryIsPow2()
    ensures IsPow2(BOUNDARY)
  {
    assert IsPow2(1);
    assert IsPow2(2);
    assert IsPow2(4);
    assert IsPow2(8);
    assert IsPow2(16);
    assert IsPow2(32);
    assert IsPow2(64);
    assert IsPow2(128);
    assert IsPow2(256);
    assert IsPow2(512);
    assert IsPow2(1024);
    assert IsPow2(2048);
  }
}
