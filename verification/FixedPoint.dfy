/** Machine integers, casts and the saturating helpers shared by the fixed-point kernels.

  A C value of a signed type is an `int` in the range of that type. A right shift of a
  signed value by k is floor division by 2^k, which is what `/` means here for a positive
  divisor. A cast is an explicit wrap (`ToI32`, `ToU32`, ...), so a value that does not
  fit is never silently kept.
  */
module FixedPoint {
  import opened Arith

  type q7 = x: int | -0x80 <= x < 0x80
  type q15 = x: int | -0x8000 <= x < 0x8000
  type q31 = x: int | -0x8000_0000 <= x < 0x8000_0000
  type q63 = x: int | -0x8000_0000_0000_0000 <= x < 0x8000_0000_0000_0000
  type u8 = x: int | 0 <= x < 0x100
  type u32 = x: int | 0 <= x < 0x1_0000_0000
  type u64 = x: int | 0 <= x < 0x1_0000_0000_0000_0000

  // A value that fits is kept by the cast to the type, so that nothing wraps.

  predicate FitsQ7(x: int) { -0x80 <= x < 0x80 }

  predicate FitsQ15(x: int) { -0x8000 <= x < 0x8000 }

  predicate FitsQ31(x: int) { -0x8000_0000 <= x < 0x8000_0000 }

  predicate FitsQ63(x: int) { -0x8000_0000_0000_0000 <= x < 0x8000_0000_0000_0000 }

  predicate FitsU32(x: int) { 0 <= x < 0x1_0000_0000 }

  // Each cast keeps a value the type can hold and otherwise wraps modulo the type's size.

  function ToI8(x: int): q7 {
    if -0x80 <= x < 0x80 then x else (x + 0x80) % 0x100 - 0x80
  }

  function ToI16(x: int): q15 {
    if -0x8000 <= x < 0x8000 then x else (x + 0x8000) % 0x1_0000 - 0x8000
  }

  function ToI32(x: int): q31 {
    if -0x8000_0000 <= x < 0x8000_0000 then x else (x + 0x8000_0000) % 0x1_0000_0000 - 0x8000_0000
  }

  function ToI64(x: int): q63 {
    if -0x8000_0000_0000_0000 <= x < 0x8000_0000_0000_0000 then x
    else (x + 0x8000_0000_0000_0000) % 0x1_0000_0000_0000_0000 - 0x8000_0000_0000_0000
  }

  function ToU32(x: int): u32 {
    if 0 <= x < 0x1_0000_0000 then x else x % 0x1_0000_0000
  }

  function ToU64(x: int): u64 {
    if 0 <= x < 0x1_0000_0000_0000_0000 then x else x % 0x1_0000_0000_0000_0000
  }

  /** A cast changes a value only by a multiple of the size of the type, into its range. */
  lemma CastsKeepLowBits(x: int)
    ensures (ToI8(x) - x) % 0x100 == 0 && (ToI16(x) - x) % 0x1_0000 == 0
    ensures (ToI32(x) - x) % 0x1_0000_0000 == 0 && (ToU32(x) - x) % 0x1_0000_0000 == 0
    ensures (ToI64(x) - x) % 0x1_0000_0000_0000_0000 == 0 && (ToU64(x) - x) % 0x1_0000_0000_0000_0000 == 0
  {
    hide *;
    NarrowCasts(x);
    SignedCasts(x);
    UnsignedCasts(x);
  }

  lemma NarrowCasts(x: int)
    ensures (ToI8(x) - x) % 0x100 == 0 && (ToI16(x) - x) % 0x1_0000 == 0
  {
    SignedCast(x, 0x80);
    SignedCast(x, 0x8000);
  }

  lemma SignedCasts(x: int)
    ensures (ToI32(x) - x) % 0x1_0000_0000 == 0 && (ToI64(x) - x) % 0x1_0000_0000_0000_0000 == 0
  {
    SignedCast(x, 0x8000_0000);
    SignedCast(x, 0x8000_0000_0000_0000);
  }

  lemma UnsignedCasts(x: int)
    ensures (ToU32(x) - x) % 0x1_0000_0000 == 0 && (ToU64(x) - x) % 0x1_0000_0000_0000_0000 == 0
  {
    UnsignedCast(x, 0x1_0000_0000);
    UnsignedCast(x, 0x1_0000_0000_0000_0000);
  }

  lemma UnsignedCast(x: int, size: int)
    requires 0 < size
    ensures (x % size - x) % size == 0
  {
    DivMod(x, size);
    DivModUnique(x % size - x, size, -(x / size), 0);
  }

  lemma SignedCast(x: int, half: int)
    requires 0 < half
    ensures ((x + half) % (2 * half) - half - x) % (2 * half) == 0
  {
    var size := 2 * half;
    DivMod(x + half, size);
    var q := (x + half) / size;
    DivModUnique((x + half) % size - half - x, size, -q, 0);
  }

  lemma ToU32IsMod(x: int)
    ensures ToU32(x) == x % 0x1_0000_0000
  {
  }

  /** The nearest value of the closed interval [lo, hi]. */
  function Clamp(lo: int, x: int, hi: int): int
    requires lo <= hi
  {
    if x < lo then lo else if x > hi then hi else x
  }

  function ClampQ7(x: int): q7 { Clamp(-0x80, x, 0x7F) }

  function ClampQ15(x: int): q15 { Clamp(-0x8000, x, 0x7FFF) }

  function ClampQ31(x: int): q31 { Clamp(-0x8000_0000, x, 0x7FFF_FFFF) }

  function Pow2(n: nat): (p: int)
    ensures p >= 1
  {
    if n == 0 then 1 else 2 * Pow2(n - 1)
  }

  lemma {:induction false} Pow2Add(m: nat, n: nat)
    ensures Pow2(m + n) == Pow2(m) * Pow2(n)
  {
    if m > 0 {
      Pow2Add(m - 1, n);
      assert Pow2(m) * Pow2(n) == 2 * Pow2(m - 1) * Pow2(n);
    }
  }

  /** `mask ^ sign`, where `sign` is an arithmetic shift that left only copies of the sign
    bit: xor with 0 keeps `mask`, xor with -1 complements it. */
  function XorSign(mask: int, sign: int): int
    requires sign == 0 || sign == -1
  {
    if sign == 0 then mask else -1 - mask
  }

  // ---------------------------------------------------------------- clip_*

  function ClipQ63ToQ31(x: q63): q31
  {
    if ToI32(x / 0x1_0000_0000) != ToI32(x) / 0x8000_0000
    then XorSign(0x7FFF_FFFF, x / 0x8000_0000_0000_0000)
    else ToI32(x)
  }

  function ClipQ63ToQ15(x: q63): q15
  {
    if ToI32(x / 0x1_0000_0000) != ToI32(x) / 0x8000_0000
    then XorSign(0x7FFF, x / 0x8000_0000_0000_0000)
    else ToI16(x / 0x8000)
  }

  function ClipQ31ToQ15(x: q31): q15
  {
    if x / 0x1_0000 != x / 0x8000
    then XorSign(0x7FFF, x / 0x8000_0000)
    else ToI16(x)
  }

  function ClipQ31ToQ7(x: q31): q7
  {
    if x / 0x100_0000 != x / 0x80_0000
    then XorSign(0x7F, x / 0x8000_0000)
    else ToI8(x)
  }

  /** The two clips whose test looks at the right bits are exact saturations. */
  lemma ClipIsSaturation(x: q63, y: q31)
    ensures ClipQ63ToQ31(x) == ClampQ31(x)
    ensures ClipQ31ToQ15(y) == ClampQ15(y)
  {
  }

  /** The Q63 to Q15 clip tests bit 31 although it keeps bits 15 to 30: the result is the
    saturated x >> 15 exactly when x is outside the two half-open bands just below 2^31
    and just below -2^30 in which the test passes but 16 bits are not enough. */
  lemma ClipQ63ToQ15IsSaturationIff(x: q63)
    ensures ClipQ63ToQ15(x) == ClampQ15(x / 0x8000)
       <==> !(0x4000_0000 <= x < 0x8000_0000 || -0x8000_0000 <= x < -0x4000_0000)
  {
  }

  /** The least positive input on which that clip fails: it gives the least value instead of the
    greatest. */
  lemma ClipQ63ToQ15Fails()
    ensures ClipQ63ToQ15(0x4000_0000) == -0x8000 && ClampQ15(0x4000_0000 / 0x8000) == 0x7FFF
  {
  }

  /** The Q31 to Q7 clip tests bits 23 to 31 although it keeps bits 0 to 7: it saturates
    exactly when x is outside the 24-bit range, or fits 8 bits, or happens to have the low
    byte the saturated value has. */
  lemma ClipQ31ToQ7IsSaturationIff(x: q31)
    ensures ClipQ31ToQ7(x) == ClampQ7(x)
       <==> || !(-0x80_0000 <= x < 0x80_0000)
            || -0x80 <= x < 0x80
            || (x >= 0x80 && x % 0x100 == 0x7F)
            || (x < -0x80 && x % 0x100 == 0x80)
  {
  }

  /** The least positive input on which that clip fails. */
  lemma ClipQ31ToQ7Fails()
    ensures ClipQ31ToQ7(0x80) == -0x80 && ClampQ7(0x80) == 0x7F
  {
  }

  // ---------------------------------------------------------------- mult32x64, __SSAT

  function Mult32x64(x: q63, y: q31): q63
  {
    ToI64(ToI64((x % 0x1_0000_0000) * y) / 0x1_0000_0000 + ToI64((x / 0x1_0000_0000) * y))
  }

  /** Splitting the 64-bit factor loses nothing: the result is the floor of the exact
    96-bit product, and no partial product or sum wraps. */
  lemma Mult32x64IsExact(x: q63, y: q31)
    ensures Mult32x64(x, y) == (x * y) / 0x1_0000_0000
    ensures FitsQ63((x % 0x1_0000_0000) * y) && FitsQ63((x / 0x1_0000_0000) * y)
    ensures FitsQ63(((x % 0x1_0000_0000) * y) / 0x1_0000_0000 + (x / 0x1_0000_0000) * y)
  {
    var h, l := x / 0x1_0000_0000, x % 0x1_0000_0000;
    ProductBound(l, 0xFFFF_FFFF, y, 0x8000_0000);
    ProductBound(h, 0x8000_0000, y, 0x8000_0000);
    Distribute(h * 0x1_0000_0000, l, y);
    Associate(0x1_0000_0000, h, y);
    JoinProducts(h * y, l * y);
  }

  lemma JoinProducts(hi: int, lo: int)
    requires -0x4000_0000_0000_0000 <= hi <= 0x4000_0000_0000_0000
    requires -0x8000_0000_0000_0000 <= lo < 0x8000_0000_0000_0000
    ensures ToI64(ToI64(lo) / 0x1_0000_0000 + ToI64(hi)) == (hi * 0x1_0000_0000 + lo) / 0x1_0000_0000
    ensures FitsQ63(lo / 0x1_0000_0000 + hi)
  {
  }

  function Ssat(val: q31, sat: nat): q31
  {
    if 1 <= sat <= 32 then
      var max := ToI32(Pow2Bit(sat - 1) - 1);
      var min := ToI32(-1 - max);
      if val > max then max else if val < min then min else val
    else val
  }

  /** `1U << n` for a 32-bit unsigned 1. */
  function Pow2Bit(n: nat): u32
    requires n < 32
  {
    ToU32(Pow2(n))
  }

  lemma SsatIsClamp(val: q31, sat: nat)
    ensures Ssat(val, sat) == if 1 <= sat <= 32 then Clamp(-Pow2(sat - 1), val, Pow2(sat - 1) - 1) else val
  {
    if !(1 <= sat <= 32) { return; }
    var m := Pow2(sat - 1);
    assert m <= 0x8000_0000 by { Pow2Monotone(sat - 1, 31); Pow2Values(); }
  }

  lemma {:induction false} Pow2Monotone(m: nat, n: nat)
    requires m <= n
    ensures Pow2(m) <= Pow2(n)
  {
    if m < n { Pow2Monotone(m, n - 1); }
  }

  lemma Pow2Values()
    ensures Pow2(8) == 0x100
    ensures Pow2(14) == 0x4000
    ensures Pow2(15) == 0x8000
    ensures Pow2(16) == 0x1_0000
    ensures Pow2(30) == 0x4000_0000
    ensures Pow2(31) == 0x8000_0000
    ensures Pow2(32) == 0x1_0000_0000
  {
    assert Pow2(8) == 0x100;
    Pow2Add(8, 8);
    Pow2Add(16, 16);
    assert Pow2(16) == 2 * Pow2(15) && Pow2(15) == 2 * Pow2(14);
    assert Pow2(32) == 2 * Pow2(31) && Pow2(31) == 2 * Pow2(30);
  }
}
