/** The Newton reciprocals `arm_recip_q31` and `arm_recip_q15`.

  Both normalise the argument to `a = in * 2^signBits` in [N, 2N), look up a seed for the
  bucket of `a`, and run two rounds of

      temp = 2N - 1 - floor(a * out / 2N);   out = floor(out * temp / N)

  with N = 2^30 (Q31) or N = 2^14 (Q15). A perfect result has a * out == 2 * N * N.
  */
module Reciprocal {
  import opened Arith
  import opened FixedPoint
  import opened BitLoops

  const INDEX_MASK_PLUS_ONE: nat := 0x40

  // ---------------------------------------------------------------- one exact round

  /** One round without any wrap or clip. */
  function Round(a: int, out: int, n: int): int
    requires n > 0
  {
    (out * (2 * n - 1 - (a * out) / (2 * n))) / n
  }

  /** How far a * out falls short of the exact reciprocal. */
  function Shortfall(a: int, out: int, n: int): int {
    2 * n * n - a * out
  }

  /** A round never overshoots, whatever the estimate was, and stays in the word. */
  lemma RoundStaysBelow(a: int, out: int, n: int)
    requires 0 < n <= a < 2 * n && 0 <= out < 2 * n
    ensures 0 <= (a * out) / (2 * n) <= 2 * n - 1
    ensures Shortfall(a, Round(a, out, n), n) >= 0
    ensures 0 <= Round(a, out, n) < 2 * n
  {
    var u, m := a * out, 2 * n;
    MulLe(0, a, out);
    ProductLess(a, out, m);
    DivMod(u, m);
    var q := u / m;
    QuotientInWord(u, m, q);
    var t := m - 1 - q;
    var r := (out * t) / n;
    MulLe(0, out, t);
    DivMod(out * t, n);
    NonNegativeQuotient(out * t, n);
    Overshoot(a, out, n, t, r);
    BelowWord(a, r, n);
  }

  lemma ProductLess(a: int, b: int, m: int)
    requires 0 <= a < m && 0 <= b < m
    ensures 0 <= a * b < m * m
  {
    MulLe(a, m - 1, b);
    MulLe(b, m - 1, m - 1);
    Distribute(m, 1, m - 1);
    Distribute(m, 1, m);
    MulLe(0, a, b);
  }

  lemma QuotientInWord(u: int, m: int, q: int)
    requires 0 < m && 0 <= u < m * m && q * m <= u < q * m + m
    ensures 0 <= q < m
  {
    if q < 0 { MulLe(q, -1, m); }
    if q >= m { MulLe(m, q, m); }
  }

  /** r * n <= out * t and 2n * t < 2s - a * out give a * r < s for s == 2nn, because
    u * (2s - u) is largest at u == s. */
  lemma Overshoot(a: int, out: int, n: int, t: int, r: int)
    requires 0 < n && 0 < a && 0 <= out
    requires 2 * n * t < 4 * n * n - a * out
    requires r * n <= out * t
    ensures a * r < 2 * n * n
  {
    MulLe(1, n, n);
    if out == 0 {
      if r > 0 { MulLe(1, r, n); }
      MulLe(r, 0, a);
    } else {
      MulLe(1, a, out);
      Scaled(a, r, n, out, t);
      BelowVertex(2 * n * n, a * out, a * r, 2 * n * t);
    }
  }

  lemma BelowVertex(s: int, u: int, w: int, z: int)
    requires 0 < s && 1 <= u && z < 2 * s - u && w * s <= z * u
    ensures w < s
  {
    MulLe(z, 2 * s - u - 1, u);
    Parabola(s, u);
    if w >= s { MulLe(s, w, s); }
  }

  lemma Scaled(a: int, r: int, n: int, out: int, t: int)
    requires 0 < n && 0 < a && r * n <= out * t
    ensures (a * r) * (2 * n * n) <= (2 * n * t) * (a * out)
  {
    MulLe(1, n, a);
    MulLe(r * n, out * t, 2 * (n * a));
    Regroup(a, r, n, out, t);
  }

  lemma Regroup(a: int, r: int, n: int, out: int, t: int)
    ensures (r * n) * (2 * (n * a)) == (a * r) * (2 * n * n)
    ensures (out * t) * (2 * (n * a)) == (2 * n * t) * (a * out)
    ensures n * (2 * (n * a)) == a * (2 * n * n)
  {
  }

  lemma Parabola(s: int, u: int)
    requires 1 <= u
    ensures (2 * s - u - 1) * u < s * s
  {
    Square(s - u);
    assert (2 * s - u - 1) * u == s * s - (s - u) * (s - u) - u;
  }

  lemma BelowWord(a: int, r: int, n: int)
    requires 0 < n <= a && a * r < 2 * n * n
    ensures r < 2 * n
  {
    if r >= 2 * n { MulLe(2 * n, r, a); MulLe(n, a, 2 * n); }
  }

  /** The relative error is squared, plus at most one unit of `a * out / n` and one of `a`
    for the two truncations of the round. */
  lemma RoundSquaresError(a: int, out: int, n: int)
    requires 0 < n <= a < 2 * n && 0 <= out < 2 * n
    ensures var e := Shortfall(a, out, n);
            Shortfall(a, Round(a, out, n), n) * (2 * n * n)
              <= e * e + 2 * n * (a * out) + a * (2 * n * n)
  {
    var t := 2 * n - 1 - (a * out) / (2 * n);
    MulLe(0, a, out);
    DivMod(a * out, 2 * n);
    DivMod(out * t, n);
    ScaledBelow(a, Round(a, out, n), n, out, t);
    TempValBound(a * out, n, t);
    ErrorIdentity(2 * n * n, a * out, 2 * n, 2 * n * t, a * Round(a, out, n), a);
  }

  lemma TempValBound(u: int, n: int, t: int)
    requires 0 < n && t == 2 * n - 1 - u / (2 * n)
    ensures 2 * (2 * n * n) - u - 2 * n <= 2 * n * t
  {
    DivMod(u, 2 * n);
    assert 2 * n * t == 4 * n * n - 2 * n - (u / (2 * n)) * (2 * n);
  }

  lemma ErrorIdentity(s: int, u: int, m: int, z: int, w: int, a: int)
    requires 0 <= u && 2 * s - u - m <= z && z * u - a * s <= w * s
    ensures (s - w) * s <= (s - u) * (s - u) + m * u + a * s
  {
    MulLe(2 * s - u - m, z, u);
    Distribute(s, w, s);
    assert (2 * s - u - m) * u == s * s - (s - u) * (s - u) - m * u;
  }

  lemma ScaledBelow(a: int, r: int, n: int, out: int, t: int)
    requires 0 < n && 0 < a && out * t < r * n + n
    ensures (2 * n * t) * (a * out) - a * (2 * n * n) <= (a * r) * (2 * n * n)
  {
    MulLe(1, n, a);
    MulLe(out * t - n, r * n, 2 * (n * a));
    Distribute(out * t, n, 2 * (n * a));
    Regroup(a, r, n, out, t);
  }

  /** The same with a bound on the error instead of the error itself. */
  lemma RoundErrorBound(a: int, out: int, n: int, bound: int)
    requires 0 < n <= a < 2 * n && 0 <= out < 2 * n
    requires -bound <= Shortfall(a, out, n) <= bound
    ensures Shortfall(a, Round(a, out, n), n) * (2 * n * n)
              <= bound * bound + (2 * n) * (2 * n * n + bound) + (2 * n) * (2 * n * n)
  {
    RoundSquaresError(a, out, n);
    MulLe(1, n, n);
    WorstCase(Shortfall(a, out, n), bound, 2 * n, 2 * n * n, a * out, a);
  }

  lemma WorstCase(e: int, bound: int, m: int, s: int, u: int, a: int)
    requires -bound <= e <= bound && u <= s + bound && a <= m && 0 <= m && 0 <= s
    ensures e * e + m * u + a * s <= bound * bound + m * (s + bound) + m * s
  {
    ProductBound(e, bound, e, bound);
    MulLe(u, s + bound, m);
    MulLe(a, m, s);
  }

  // ---------------------------------------------------------------- Q31

  function SignBitsQ31(x: q31): nat
    requires x != -0x8000_0000
  {
    LeadingZeros(if x > 0 then x else -x) - 1
  }

  function NormalizedQ31(x: q31): q31
    requires x != -0x8000_0000
  {
    ToI32(x * Pow2(SignBitsQ31(x)))
  }

  function BucketQ31(a: q31): (index: nat)
    ensures index < INDEX_MASK_PLUS_ONE
  {
    ToU32(a / 0x100_0000) % INDEX_MASK_PLUS_ONE
  }

  function RoundQ31(a: q31, out: q31): q31 {
    var ratio := ToU32(ToI64(a * out) / 0x8000_0000);
    var tempVal := ToU32(0x7FFF_FFFF - ratio);
    ClipQ63ToQ31(ToI64(out * tempVal) / 0x4000_0000)
  }

  function RoundsQ31(a: q31, out: q31, k: nat): q31 {
    if k == 0 then out else RoundQ31(a, RoundsQ31(a, out, k - 1))
  }

  function RecipQ31(x: q31, table: seq<q31>): q31
    requires x != -0x8000_0000 && |table| >= INDEX_MASK_PLUS_ONE
  {
    var a := NormalizedQ31(x);
    RoundsQ31(a, table[BucketQ31(a)], 2)
  }

  /** `arm_recip_q31`. Negating the least 32-bit value is undefined in the original, so it
    is the one argument excluded. */
  method ArmRecipQ31(x: q31, table: seq<q31>) returns (dst: q31, bits: nat)
    requires x != -0x8000_0000 && |table| >= INDEX_MASK_PLUS_ONE
    ensures dst == RecipQ31(x, table)
    ensures bits == SignBitsQ31(x) + 1
  {
    var signBits: nat;
    if x > 0 {
      signBits := Clz(x);
    } else {
      signBits := Clz(-x);
    }
    signBits := signBits - 1;
    var a: q31 := ToI32(x * Pow2(signBits));
    var index := ToU32(a / 0x100_0000);
    index := index % INDEX_MASK_PLUS_ONE;
    var out: q31 := table[index];
    for i := 0 to 2
      invariant out == RoundsQ31(a, table[index], i)
    {
      out := PassQ31(a, out);
    }
    return out, signBits + 1;
  }

  /** One pass of the loop. */
  method PassQ31(a: q31, out: q31) returns (next: q31)
    ensures next == RoundQ31(a, out)
  {
    var tempVal: int := ToU32(ToI64(a * out) / 0x8000_0000);
    tempVal := ToU32(0x7FFF_FFFF - tempVal);
    next := ClipQ63ToQ31(ToI64(out * tempVal) / 0x4000_0000);
  }

  /** Normalising a positive argument never wraps. */
  lemma NormalizeQ31(x: q31)
    requires x > 0
    ensures NormalizedQ31(x) == x * Pow2(SignBitsQ31(x))
    ensures 0x4000_0000 <= NormalizedQ31(x) < 0x8000_0000
  {
    var s := SignBitsQ31(x);
    Pow2Values();
    Pow2Add(30 - s, s);
    assert Pow2(31 - (s + 1)) == Pow2(30 - s);
    MulLe(Pow2(30 - s), x, Pow2(s));
    MulLe(x, 2 * Pow2(30 - s) - 1, Pow2(s));
    Distribute(2 * Pow2(30 - s), 1, Pow2(s));
    Associate(2, Pow2(30 - s), Pow2(s));
  }

  /** Every value of a round is the one it would be without machine arithmetic, and the clip
    keeps the result. */
  predicate RoundFitsQ31(a: int, out: int) {
    var ratio := (a * out) / 0x8000_0000;
    && FitsQ63(a * out) && FitsU32(ratio) && FitsU32(0x7FFF_FFFF - ratio)
    && FitsQ63(out * (0x7FFF_FFFF - ratio)) && FitsQ31(Round(a, out, 0x4000_0000))
  }

  /** For a positive argument and a non-negative estimate nothing in the round wraps or
    saturates, and the estimate stays below the exact reciprocal. */
  lemma RoundQ31IsExact(a: q31, out: q31)
    requires 0x4000_0000 <= a && 0 <= out
    ensures RoundQ31(a, out) == Round(a, out, 0x4000_0000) && RoundFitsQ31(a, out)
    ensures 0 <= RoundQ31(a, out) && a * RoundQ31(a, out) <= 0x2000_0000_0000_0000
  {
    RoundStaysBelow(a, out, 0x4000_0000);
    ProductBound(a, 0x8000_0000, out, 0x8000_0000);
    var tempVal := 0x7FFF_FFFF - (a * out) / 0x8000_0000;
    ProductBound(out, 0x8000_0000, tempVal, 0x8000_0000);
    ClipIsSaturation(Round(a, out, 0x4000_0000), 0);
  }

  /** Every pass stays below the exact reciprocal for any table, good or bad. */
  lemma {:induction false} EveryPassStaysBelowQ31(a: q31, seed: q31, k: nat)
    requires 0x4000_0000 <= a && 0 <= seed
    ensures 0 <= RoundsQ31(a, seed, k)
    ensures RoundsQ31(a, seed, k + 1) == Round(a, RoundsQ31(a, seed, k), 0x4000_0000)
    ensures a * RoundsQ31(a, seed, k + 1) <= 0x2000_0000_0000_0000
  {
    if k > 0 { EveryPassStaysBelowQ31(a, seed, k - 1); RoundQ31IsExact(a, RoundsQ31(a, seed, k - 1)); }
    RoundQ31IsExact(a, RoundsQ31(a, seed, k));
  }

  lemma RoundErrorQ31(a: q31, out: q31, bound: int)
    requires 0x4000_0000 <= a && 0 <= out
    requires -bound <= 0x2000_0000_0000_0000 - a * out <= bound
    ensures (0x2000_0000_0000_0000 - a * RoundQ31(a, out)) * 0x2000_0000_0000_0000
         <= bound * bound + 0x8000_0000 * (0x4000_0000_0000_0000 + bound)
  {
    RoundQ31IsExact(a, out);
    RoundErrorBound(a, out, 0x4000_0000, bound);
  }

  /** A seed within 2^-6 of the reciprocal gives a result within 2^-23 of it, from below: the
    error of 2^-12 after the first round, squared, and the truncations. */
  lemma TwoRoundsAccurateQ31(a: q31, seed: q31)
    requires 0x4000_0000 <= a
    requires -0x80_0000_0000_0000 <= a * seed - 0x2000_0000_0000_0000 <= 0x80_0000_0000_0000
    ensures 0 <= 0x2000_0000_0000_0000 - a * RoundsQ31(a, seed, 2) <= 0x21_0050_0000
  {
    if seed < 0 { MulLe(seed, -1, a); }
    var first := RoundQ31(a, seed);
    RoundQ31IsExact(a, seed);
    RoundQ31IsExact(a, first);
    RoundErrorQ31(a, seed, 0x80_0000_0000_0000);
    RoundErrorQ31(a, first, 0x2_0002_0000_0000);
    assert RoundsQ31(a, seed, 2) == RoundQ31(a, first) by {
      assert RoundsQ31(a, seed, 1) == RoundQ31(a, RoundsQ31(a, seed, 0));
    }
  }

  /** The result for a positive argument, exactly: two rounds without any wrap or clip, from
    the entry for the upper seven bits of the normalised argument. */
  lemma RecipQ31IsTwoRounds(x: q31, a: int, table: seq<q31>)
    requires x > 0 && a == x * Pow2(SignBitsQ31(x)) && |table| >= INDEX_MASK_PLUS_ONE
    requires forall i | 0 <= i < |table| :: 0 <= table[i]
    ensures 0x4000_0000 <= a < 0x8000_0000
    ensures RecipQ31(x, table) == Round(a, Round(a, table[a / 0x100_0000 - 0x40], 0x4000_0000), 0x4000_0000)
  {
    NormalizeQ31(x);
    BucketOfPositiveQ31(a);
    hide SignBitsQ31, Pow2, NormalizedQ31, RoundsQ31, BucketQ31, Round;
    TwoRoundsQ31(a, table[BucketQ31(a)]);
  }

  /** The seed for any argument: its upper bits count the buckets modulo 64. */
  lemma BucketOfAnyQ31(a: q31)
    ensures BucketQ31(a) == (a / 0x100_0000) % 0x40
  {
  }

  /** The round for any argument and any estimate: the difference is taken modulo 2^32 and the
    result is saturated. */
  lemma RoundQ31Value(a: q31, out: q31)
    ensures RoundQ31(a, out)
         == ClampQ31((out * ((0x7FFF_FFFF - (a * out) / 0x8000_0000) % 0x1_0000_0000)) / 0x4000_0000)
  {
    hide ToU32, ToI64, ClipQ63ToQ31, ClampQ31;
    ProductFits(a, out);
    DifferenceModulo((a * out) / 0x8000_0000);
    ClippedProduct(out, (0x7FFF_FFFF - (a * out) / 0x8000_0000) % 0x1_0000_0000);
  }

  lemma ProductFits(a: q31, b: q31)
    ensures ToI64(a * b) == a * b
  {
    ProductBound(a, 0x8000_0000, b, 0x8000_0000);
  }

  lemma ClippedProduct(out: q31, tempVal: int)
    requires 0 <= tempVal < 0x1_0000_0000
    ensures FitsQ63((ToI64(out * tempVal)) / 0x4000_0000)
    ensures ClipQ63ToQ31(ToI64(out * tempVal) / 0x4000_0000) == ClampQ31((out * tempVal) / 0x4000_0000)
  {
    ProductBound(out, 0x8000_0000, tempVal, 0xFFFF_FFFF);
    ClipIsSaturation((out * tempVal) / 0x4000_0000, 0);
    hide ClipQ63ToQ31, ClampQ31;
  }

  lemma DifferenceModulo(q: int)
    ensures ToU32(0x7FFF_FFFF - ToU32(q)) == (0x7FFF_FFFF - q) % 0x1_0000_0000
  {
  }

  lemma BucketOfPositiveQ31(a: q31)
    requires 0x4000_0000 <= a
    ensures BucketQ31(a) == a / 0x100_0000 - 0x40
  {
  }

  lemma TwoRoundsQ31(a: q31, seed: q31)
    requires 0x4000_0000 <= a && 0 <= seed
    ensures RoundsQ31(a, seed, 2) == Round(a, Round(a, seed, 0x4000_0000), 0x4000_0000)
  {
    hide RoundQ31, Round;
    RoundQ31IsExact(a, seed);
    RoundQ31IsExact(a, RoundQ31(a, seed));
    assert RoundsQ31(a, seed, 1) == RoundQ31(a, RoundsQ31(a, seed, 0));
  }

  lemma RecipQ31Accurate(x: q31, table: seq<q31>)
    requires x > 0 && |table| >= INDEX_MASK_PLUS_ONE
    requires var a := NormalizedQ31(x);
             -0x80_0000_0000_0000 <= a * table[BucketQ31(a)] - 0x2000_0000_0000_0000 <= 0x80_0000_0000_0000
    ensures 0 <= 0x2000_0000_0000_0000 - (x * Pow2(SignBitsQ31(x))) * RecipQ31(x, table) <= 0x21_0050_0000
  {
    NormalizeQ31(x);
    var a := NormalizedQ31(x);
    TwoRoundsAccurateQ31(a, table[BucketQ31(a)]);
  }

  /** A table is good when every normalised argument finds a seed within 2^-6 of its
    reciprocal. */
  ghost predicate GoodTableQ31(table: seq<q31>) {
    && |table| >= INDEX_MASK_PLUS_ONE
    && (forall i | 0 <= i < |table| :: 0 <= table[i])
    && forall a: q31 | 0x4000_0000 <= a ::
         -0x80_0000_0000_0000 <= a * table[BucketQ31(a)] - 0x2000_0000_0000_0000 <= 0x80_0000_0000_0000
  }

  /** With a good table the documented reciprocal is delivered exactly for positive
    arguments; for zero and negative ones the result is never one. */
  lemma RecipQ31AccurateIff(x: q31, table: seq<q31>)
    requires x != -0x8000_0000 && GoodTableQ31(table)
    ensures 0 <= 0x2000_0000_0000_0000 - (x * Pow2(SignBitsQ31(x))) * RecipQ31(x, table) <= 0x21_0050_0000
       <==> x > 0
  {
    if x > 0 {
      NormalizeQ31(x);
      RecipQ31Accurate(x, table);
    } else {
      var a := NormalizedQ31(x);
      var seed := table[BucketQ31(a)];
      RoundsNonNegativeQ31(a, seed, 2);
      MulLe(x, 0, Pow2(SignBitsQ31(x)));
      MulLe(x * Pow2(SignBitsQ31(x)), 0, RecipQ31(x, table));
    }
  }

  /** What it is for them: the largest value, whatever the argument and the good table. */
  lemma RecipQ31NonPositive(x: q31, table: seq<q31>)
    requires -0x8000_0000 < x <= 0 && GoodTableQ31(table)
    ensures RecipQ31(x, table) == 0x7FFF_FFFF
  {
    var h := NormalizeNonPositiveQ31(x);
    var seed := table[BucketQ31(-h)];
    GoodSeedLarge(table, BucketQ31(-h));
    assert h == 0 ==> BucketQ31(-h) == 0;
    hide GoodTableQ31, BucketQ31, RoundQ31, NormalizedQ31, SignBitsQ31, Pow2;
    SeedSaturates(h, seed);
    MulLe(0x7FFF_FFFF, 0x7FFF_FFFF + (h * 0x7FFF_FFFF) / 0x8000_0000, 0x7FFF_FFFF) by {
      MulLe(0, h, 0x7FFF_FFFF);
      NonNegativeQuotient(h * 0x7FFF_FFFF, 0x8000_0000);
    }
    RoundSaturates(h, 0x7FFF_FFFF);
    assert RoundsQ31(-h, seed, 1) == RoundQ31(-h, RoundsQ31(-h, seed, 0));
  }

  /** A negative argument is normalised as its absolute value is. */
  lemma NormalizeNonPositiveQ31(x: q31) returns (h: int)
    requires -0x8000_0000 < x <= 0
    ensures h == 0 || 0x4000_0000 <= h < 0x8000_0000
    ensures x < 0 <==> h > 0
    ensures NormalizedQ31(x) == x * Pow2(SignBitsQ31(x)) == -h
    ensures SignBitsQ31(x) == if x < 0 then SignBitsQ31(-(x as int)) else 31
  {
    hide Pow2, LeadingZeros;
    var y: int := x;
    var p := Pow2(SignBitsQ31(x));
    h := (-y) * p;
    assert y * p == -h;
    if x < 0 { NormalizeQ31(-y); }
  }

  /** The entry for a bucket is within 2^-6 of the reciprocal of the bucket's lower end. */
  lemma GoodSeedLarge(table: seq<q31>, k: nat)
    requires GoodTableQ31(table) && k < INDEX_MASK_PLUS_ONE
    ensures 0x3F00_0000 <= table[k] && (k == 0 ==> 0x7E00_0000 <= table[k])
  {
    var a := 0x4000_0000 + 0x100_0000 * k;
    assert BucketQ31(a) == k;
    var t: int := table[k];
    assert 0x1F80_0000_0000_0000 <= a * t;
    if t < 0x3F00_0000 { MulLe(a, 0x8000_0000, t); }
  }

  lemma SeedSaturates(h: int, seed: q31)
    requires 0x3F00_0000 <= seed && (h == 0 || 0x4000_0000 <= h < 0x8000_0000)
    requires h == 0 ==> 0x7E00_0000 <= seed
    ensures RoundQ31(-h, seed) == 0x7FFF_FFFF
  {
    var q := (h * seed) / 0x8000_0000;
    DivMod(h * seed, 0x8000_0000);
    if h > 0 {
      MulLe(0x4000_0000, h, seed);
      MulLe(0x3F00_0000, seed, 0x4000_0000);
      assert q >= 0x1F80_0000;
      MulLe(0x3F00_0000, seed, 0x7FFF_FFFF + q);
    }
    RoundSaturates(h, seed);
  }

  lemma RoundSaturates(h: int, out: q31)
    requires 0 <= h < 0x8000_0000 && 0 <= out
    requires 0x1FFF_FFFF_C000_0000 <= out * (0x7FFF_FFFF + (h * out) / 0x8000_0000)
    ensures RoundQ31(-h, out) == 0x7FFF_FFFF
  {
    var u, v: int := h * out, out;
    assert (-h) * v == -u;
    ProductBound(h, 0x7FFF_FFFF, v, 0x7FFF_FFFF);
    MulLe(0, h, v);
    var tempVal := 0x7FFF_FFFF - (-u) / 0x8000_0000;
    ComplementQ31(u);
    MulLe(0x7FFF_FFFF + u / 0x8000_0000, tempVal, v);
    ProductBound(v, 0x7FFF_FFFF, tempVal, 0xFFFF_FFFF);
    DivMonotone(0x1FFF_FFFF_C000_0000, v * tempVal, 0x4000_0000);
    ClipIsSaturation((v * tempVal) / 0x4000_0000, 0);
    hide ClipQ63ToQ31;
  }

  lemma ComplementQ31(u: int)
    requires 0 <= u <= 0x3FFF_FFFF_0000_0001
    ensures ToI64(-u) == -u
    ensures var tempVal := 0x7FFF_FFFF - (-u) / 0x8000_0000;
            && ToU32(0x7FFF_FFFF - ToU32((-u) / 0x8000_0000)) == tempVal
            && 0x7FFF_FFFF + u / 0x8000_0000 <= tempVal <= 0xFFFF_FFFF
  {
  }

  lemma MinusOneFailsQ31()
    ensures var dst := RecipQ31(-1, MidpointTableQ31());
            !(0 <= 0x2000_0000_0000_0000 - (-1 * Pow2(SignBitsQ31(-1))) * dst <= 0x21_0050_0000)
  {
    hide *;
    MidpointTableIsGoodQ31();
    RecipQ31AccurateIff(-1, MidpointTableQ31());
  }

  lemma {:induction false} RoundsNonNegativeQ31(a: q31, out: q31, k: nat)
    requires 0 <= out
    ensures 0 <= RoundsQ31(a, out, k)
  {
    if k > 0 {
      RoundsNonNegativeQ31(a, out, k - 1);
      RoundNonNegativeQ31(a, RoundsQ31(a, out, k - 1));
    }
  }

  lemma RoundNonNegativeQ31(a: q31, out: q31)
    requires 0 <= out
    ensures 0 <= RoundQ31(a, out)
  {
    var tempVal := ToU32(0x7FFF_FFFF - ToU32(ToI64(a * out) / 0x8000_0000));
    MulLe(0, out, tempVal);
    ProductBound(out, 0x7FFF_FFFF, tempVal, 0xFFFF_FFFF);
    var v := (out * tempVal) / 0x4000_0000;
    NonNegativeQuotient(out * tempVal, 0x4000_0000);
    ClipIsSaturation(v, 0);
  }

  /** Good tables exist: the reciprocal of each bucket's midpoint. */
  function MidpointTableQ31(): (table: seq<q31>)
    ensures |table| == INDEX_MASK_PLUS_ONE
  {
    seq(INDEX_MASK_PLUS_ONE, (k: nat) requires k < INDEX_MASK_PLUS_ONE => MidpointSeedQ31(k))
  }

  function MidpointSeedQ31(k: nat): (seed: q31)
    requires k < INDEX_MASK_PLUS_ONE
    ensures 0 <= seed
  {
    SeedFits(0x4080_0000 + 0x100_0000 * k);
    0x2000_0000_0000_0000 / (0x4080_0000 + 0x100_0000 * k)
  }

  lemma SeedFits(mid: int)
    requires 0x4000_0000 < mid
    ensures 0 <= 0x2000_0000_0000_0000 / mid < 0x8000_0000
  {
    var t := 0x2000_0000_0000_0000 / mid;
    DivMod(0x2000_0000_0000_0000, mid);
    NonNegativeQuotient(0x2000_0000_0000_0000, mid);
    if t >= 0x8000_0000 { MulLe(0x8000_0000, t, mid); }
  }

  lemma MidpointTableIsGoodQ31()
    ensures GoodTableQ31(MidpointTableQ31())
  {
    var table := MidpointTableQ31();
    forall a: q31 | 0x4000_0000 <= a
      ensures -0x80_0000_0000_0000 <= a * table[BucketQ31(a)] - 0x2000_0000_0000_0000 <= 0x80_0000_0000_0000
    {
      var k := BucketQ31(a);
      assert k == a / 0x100_0000 - 0x40;
      SeedQuality(a, 0x4080_0000 + 0x100_0000 * k);
    }
  }

  lemma SeedQuality(a: q31, mid: int)
    requires 0x4000_0000 <= mid < 0x8000_0000 && -0x80_0000 <= a - mid <= 0x80_0000
    ensures -0x80_0000_0000_0000 <= a * (0x2000_0000_0000_0000 / mid) - 0x2000_0000_0000_0000 <= 0x80_0000_0000_0000
  {
    var s := 0x2000_0000_0000_0000;
    var t := s / mid;
    DivMod(s, mid);
    NonNegativeQuotient(s, mid);
    if t > 0x8000_0000 { MulLe(0x8000_0001, t, mid); }
    ProductBound(a - mid, 0x80_0000, t, 0x8000_0000);
    Distribute(a, mid, t);
  }

  // ---------------------------------------------------------------- Q15

  function MagnitudeQ15(x: q15): u32 {
    var y: int := x;
    if y > 0 then y else -y
  }

  function SignBitsQ15(x: q15): nat
    requires x != -0x8000
  {
    FitsFifteenBits(MagnitudeQ15(x));
    LeadingZeros(MagnitudeQ15(x)) - 17
  }

  lemma FitsFifteenBits(x: u32)
    requires x < 0x8000
    ensures LeadingZeros(x) >= 17
  {
    var c := LeadingZeros(x);
    if c < 17 { Pow2Monotone(15, 31 - c); Pow2Values(); }
  }

  function NormalizedQ15(x: q15): q15
    requires x != -0x8000
  {
    ToI16(x * Pow2(SignBitsQ15(x)))
  }

  function BucketQ15(a: q15): (index: nat)
    ensures index < INDEX_MASK_PLUS_ONE
  {
    ToU32(a / 0x100) % INDEX_MASK_PLUS_ONE
  }

  /** The product is formed in unsigned 32-bit arithmetic: `tempVal` is unsigned. */
  function RoundQ15(a: q15, out: q15): q15 {
    var ratio := ToU32((a * out) / 0x8000);
    var tempVal := ToU32(0x7FFF - ratio);
    ToI16(ToU32(ToU32(out) * tempVal) / 0x4000)
  }

  function RoundsQ15(a: q15, out: q15, k: nat): q15 {
    if k == 0 then out else RoundQ15(a, RoundsQ15(a, out, k - 1))
  }

  function RecipQ15(x: q15, table: seq<q15>): q15
    requires x != -0x8000 && |table| >= INDEX_MASK_PLUS_ONE
  {
    var a := NormalizedQ15(x);
    RoundsQ15(a, table[BucketQ15(a)], 2)
  }

  /** `arm_recip_q15`. For the least 16-bit value the sign-bit count is -1 and the shift by
    it undefined, so it is the one argument excluded. */
  method ArmRecipQ15(x: q15, table: seq<q15>) returns (dst: q15, bits: nat)
    requires x != -0x8000 && |table| >= INDEX_MASK_PLUS_ONE
    ensures dst == RecipQ15(x, table)
    ensures bits == SignBitsQ15(x) + 1
  {
    var signBits: nat;
    FitsFifteenBits(MagnitudeQ15(x));
    if x > 0 {
      signBits := Clz(x);
    } else {
      signBits := Clz(-x);
    }
    signBits := signBits - 17;
    var a: q15 := ToI16(x * Pow2(signBits));
    var index := ToU32(a / 0x100);
    index := index % INDEX_MASK_PLUS_ONE;
    var out: q15 := table[index];
    for i := 0 to 2
      invariant out == RoundsQ15(a, table[index], i)
    {
      out := PassQ15(a, out);
    }
    return out, signBits + 1;
  }

  method PassQ15(a: q15, out: q15) returns (next: q15)
    ensures next == RoundQ15(a, out)
  {
    var tempVal: int := ToU32((a * out) / 0x8000);
    tempVal := ToU32(0x7FFF - tempVal);
    next := ToI16(ToU32(ToU32(out) * tempVal) / 0x4000);
  }

  lemma NormalizeQ15(x: q15)
    requires x > 0
    ensures NormalizedQ15(x) == x * Pow2(SignBitsQ15(x))
    ensures 0x4000 <= NormalizedQ15(x) < 0x8000
  {
    var s := SignBitsQ15(x);
    assert s <= 14;
    Pow2Values();
    Pow2Add(14 - s, s);
    assert Pow2(31 - (s + 17)) == Pow2(14 - s);
    MulLe(Pow2(14 - s), x, Pow2(s));
    MulLe(x, 2 * Pow2(14 - s) - 1, Pow2(s));
    Distribute(2 * Pow2(14 - s), 1, Pow2(s));
    Associate(2, Pow2(14 - s), Pow2(s));
  }

  predicate RoundFitsQ15(a: int, out: int) {
    var ratio := (a * out) / 0x8000;
    && FitsQ31(a * out) && FitsU32(ratio) && FitsU32(0x7FFF - ratio)
    && FitsU32(out * (0x7FFF - ratio)) && FitsQ15(Round(a, out, 0x4000))
  }

  /** For a positive argument neither the unsigned product wraps nor the final cast
    truncates, although the clip is commented out in the original. */
  lemma RoundQ15IsExact(a: q15, out: q15)
    requires 0x4000 <= a && 0 <= out
    ensures RoundQ15(a, out) == Round(a, out, 0x4000) && RoundFitsQ15(a, out)
    ensures 0 <= RoundQ15(a, out) && a * RoundQ15(a, out) <= 0x2000_0000
  {
    RoundStaysBelow(a, out, 0x4000);
    var tempVal := 0x7FFF - (a * out) / 0x8000;
    MulLe(0, out, tempVal);
    ProductBound(out, 0x8000, tempVal, 0x8000);
  }

  lemma RoundErrorQ15(a: q15, out: q15, bound: int)
    requires 0x4000 <= a && 0 <= out
    requires -bound <= 0x2000_0000 - a * out <= bound
    ensures (0x2000_0000 - a * RoundQ15(a, out)) * 0x2000_0000
         <= bound * bound + 0x8000 * (0x4000_0000 + bound)
  {
    RoundQ15IsExact(a, out);
    RoundErrorBound(a, out, 0x4000, bound);
  }

  lemma {:induction false} EveryPassStaysBelowQ15(a: q15, seed: q15, k: nat)
    requires 0x4000 <= a && 0 <= seed
    ensures 0 <= RoundsQ15(a, seed, k)
    ensures RoundsQ15(a, seed, k + 1) == Round(a, RoundsQ15(a, seed, k), 0x4000)
    ensures a * RoundsQ15(a, seed, k + 1) <= 0x2000_0000
  {
    if k > 0 { EveryPassStaysBelowQ15(a, seed, k - 1); RoundQ15IsExact(a, RoundsQ15(a, seed, k - 1)); }
    RoundQ15IsExact(a, RoundsQ15(a, seed, k));
  }

  lemma TwoRoundsAccurateQ15(a: q15, seed: q15)
    requires 0x4000 <= a
    requires -0x80_0000 <= a * seed - 0x2000_0000 <= 0x80_0000
    ensures 0 <= 0x2000_0000 - a * RoundsQ15(a, seed, 2) <= 0x1_0080
  {
    if seed < 0 { MulLe(seed, -1, a); }
    var first := RoundQ15(a, seed);
    RoundQ15IsExact(a, seed);
    RoundQ15IsExact(a, first);
    RoundErrorQ15(a, seed, 0x80_0000);
    RoundErrorQ15(a, first, 0x3_0200);
    assert RoundsQ15(a, seed, 2) == RoundQ15(a, first) by {
      assert RoundsQ15(a, seed, 1) == RoundQ15(a, RoundsQ15(a, seed, 0));
    }
  }

  /** The result for a positive argument, exactly. */
  lemma RecipQ15IsTwoRounds(x: q15, a: int, table: seq<q15>)
    requires x > 0 && a == x * Pow2(SignBitsQ15(x)) && |table| >= INDEX_MASK_PLUS_ONE
    requires forall i | 0 <= i < |table| :: 0 <= table[i]
    ensures 0x4000 <= a < 0x8000
    ensures RecipQ15(x, table) == Round(a, Round(a, table[a / 0x100 - 0x40], 0x4000), 0x4000)
  {
    NormalizeQ15(x);
    BucketOfPositiveQ15(a);
    hide SignBitsQ15, Pow2, NormalizedQ15, RoundsQ15, BucketQ15, Round;
    TwoRoundsQ15(a, table[BucketQ15(a)]);
  }

  lemma BucketOfPositiveQ15(a: q15)
    requires 0x4000 <= a
    ensures BucketQ15(a) == a / 0x100 - 0x40
  {
  }

  lemma TwoRoundsQ15(a: q15, seed: q15)
    requires 0x4000 <= a && 0 <= seed
    ensures RoundsQ15(a, seed, 2) == Round(a, Round(a, seed, 0x4000), 0x4000)
  {
    hide RoundQ15, Round;
    RoundQ15IsExact(a, seed);
    RoundQ15IsExact(a, RoundQ15(a, seed));
    assert RoundsQ15(a, seed, 1) == RoundQ15(a, RoundsQ15(a, seed, 0));
  }

  /** A seed within 2^-6 of the reciprocal gives a result within 2^-12 of it, from below. */
  lemma RecipQ15Accurate(x: q15, table: seq<q15>)
    requires x > 0 && |table| >= INDEX_MASK_PLUS_ONE
    requires var a := NormalizedQ15(x);
             -0x80_0000 <= a * table[BucketQ15(a)] - 0x2000_0000 <= 0x80_0000
    ensures 0 <= 0x2000_0000 - (x * Pow2(SignBitsQ15(x))) * RecipQ15(x, table) <= 0x1_0080
  {
    NormalizeQ15(x);
    var a := NormalizedQ15(x);
    TwoRoundsAccurateQ15(a, table[BucketQ15(a)]);
  }

  /** Delivered accuracy: below the reciprocal by at most a relative error of 2^-12. */
  ghost predicate AccurateQ15(x: q15, table: seq<q15>)
    requires x != -0x8000 && |table| >= INDEX_MASK_PLUS_ONE
  {
    0 <= 0x2000_0000 - (x * Pow2(SignBitsQ15(x))) * RecipQ15(x, table) <= 0x2_0000
  }

  /** A table is good when every normalised argument finds a seed within 2^-6 of its
    reciprocal. */
  ghost predicate GoodTableQ15(table: seq<q15>) {
    && |table| >= INDEX_MASK_PLUS_ONE
    && (forall i | 0 <= i < |table| :: 0 <= table[i])
    && forall a: q15 | 0x4000 <= a :: -0x80_0000 <= a * table[BucketQ15(a)] - 0x2000_0000 <= 0x80_0000
  }

  lemma GoodTableAccurateQ15(x: q15, table: seq<q15>)
    requires x > 0 && GoodTableQ15(table)
    ensures AccurateQ15(x, table)
  {
    NormalizeQ15(x);
    RecipQ15Accurate(x, table);
  }

  /** The table of the reciprocals of one point of each bucket, `offset` above its lower end;
    an offset of 0x80 is the midpoint. */
  function BucketTableQ15(offset: nat): (table: seq<q15>)
    requires 0x20 <= offset <= 0xE0
    ensures |table| == INDEX_MASK_PLUS_ONE
  {
    seq(INDEX_MASK_PLUS_ONE, (k: nat) requires k < INDEX_MASK_PLUS_ONE => SeedQ15(offset, k))
  }

  function SeedQ15(offset: nat, k: nat): (seed: q15)
    requires 0x20 <= offset <= 0xE0 && k < INDEX_MASK_PLUS_ONE
    ensures 0 <= seed
  {
    SeedFitsQ15(0x4000 + offset + 0x100 * k);
    0x2000_0000 / (0x4000 + offset + 0x100 * k)
  }

  lemma SeedFitsQ15(point: int)
    requires 0x4000 < point
    ensures 0 <= 0x2000_0000 / point < 0x8000
  {
    var t := 0x2000_0000 / point;
    DivMod(0x2000_0000, point);
    NonNegativeQuotient(0x2000_0000, point);
    if t >= 0x8000 { MulLe(0x8000, t, point); }
  }

  /** Good tables exist: the midpoint table is one, and so are those of the points near it. */
  lemma BucketTableIsGoodQ15(offset: nat)
    requires 0x20 <= offset <= 0xE0
    ensures GoodTableQ15(BucketTableQ15(offset))
  {
    var table := BucketTableQ15(offset);
    forall a: q15 | 0x4000 <= a
      ensures -0x80_0000 <= a * table[BucketQ15(a)] - 0x2000_0000 <= 0x80_0000
    {
      var k := BucketQ15(a);
      assert k == a / 0x100 - 0x40;
      SeedQualityQ15(a, 0x4000 + offset + 0x100 * k);
    }
  }

  lemma SeedQualityQ15(a: q15, point: int)
    requires 0x4000 < point < 0x8000 && -0xE0 <= a - point <= 0xE0
    ensures -0x80_0000 <= a * (0x2000_0000 / point) - 0x2000_0000 <= 0x80_0000
  {
    var s := 0x2000_0000;
    var t := s / point;
    SeedFitsQ15(point);
    DivMod(s, point);
    ProductBound(a - point, 0xE0, t, 0x8000);
    Distribute(a, point, t);
  }
}
