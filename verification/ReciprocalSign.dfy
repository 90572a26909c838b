/** For which arguments the Q15 reciprocal can be relied on.

  A good table gives every positive argument its reciprocal. For a negative argument the
  rounds run on wrapped values, and whether the result happens to be accurate depends on the
  table: one negative argument is accurate with the midpoint table, and none is with the
  table of the points 0xE0 above the bucket ends. So the arguments that are accurate with
  every good table are exactly the positive ones.

  That none is accurate is proved for whole intervals of arguments at once: between its ends
  the two rounds are monotone up to truncations and a known multiple of 2^16.
  */
module ReciprocalSign {
  import opened Arith
  import opened FixedPoint
  import opened BitLoops
  import opened Reciprocal

  // ---------------------------------------------------------------- one round, any argument

  /** A round for the argument -h before its final cast. */
  function Estimate(h: int, out: int): int {
    (out * (0x7FFF - (-(h * out)) / 0x8000)) / 0x4000
  }

  /** The unsigned product loses nothing that the final cast would keep, for every normalised
    argument of either sign and every estimate. */
  lemma AnyRound(h: int, out: q15)
    requires -0x8000 < h < 0x8000
    ensures RoundQ15(-h, out) == ToI16(Estimate(h, out))
  {
    hide ToU32, ToI16;
    var u, v: int := h * out, out;
    assert (-h) * v == -u;
    RatioBounds(h, out);
    Complement((-u) / 0x8000);
    UnsignedProduct(out, 0x7FFF - (-u) / 0x8000);
  }

  lemma Complement(ratio: int)
    requires -0x8000 <= ratio < 0x8000
    ensures ToU32(0x7FFF - ToU32(ratio)) == 0x7FFF - ratio
  {
  }

  lemma RatioBounds(h: int, v: q15)
    requires -0x8000 < h < 0x8000
    ensures -0x8000 <= (-(h * v)) / 0x8000 < 0x8000
  {
    ProductBound(h, 0x7FFF, v, 0x8000);
    var u := -(h * v);
    DivMod(u, 0x8000);
  }

  lemma UnsignedProduct(out: q15, tempVal: nat)
    requires tempVal < 0x1_0000
    ensures ToI16(ToU32(ToU32(out) * tempVal) / 0x4000) == ToI16((out * tempVal) / 0x4000)
  {
    var v: int := out;
    var y := v * tempVal;
    Distribute(v, 0x1_0000_0000, tempVal);
    ProductBound(v, 0x8000, tempVal, 0x1_0000);
    if v < 0 {
      assert ToU32(out) * tempVal == y + 0x1_0000_0000 * tempVal;
    }
    ToU32IsMod(ToU32(out) * tempVal);
    LowBits(y, if v < 0 then tempVal else 0);
  }

  /** Casting to 32 and then to 16 bits around a shift by 14 keeps the low 16 bits. */
  lemma LowBits(y: int, k: nat)
    ensures ToI16(((y + 0x1_0000_0000 * k) % 0x1_0000_0000) / 0x4000) == ToI16(y / 0x4000)
  {
    var q := y / 0x1_0000_0000;
    DivMod(y, 0x1_0000_0000);
    DivModUnique(y + 0x1_0000_0000 * k, 0x1_0000_0000, q + k, y % 0x1_0000_0000);
    var r := y % 0x1_0000_0000;
    DivMod(r, 0x4000);
    DivModUnique(y, 0x4000, r / 0x4000 + 0x4_0000 * q, r % 0x4000);
    SameLow(y / 0x4000, r / 0x4000, 4 * q);
  }

  lemma SameLow(u: int, w: int, m: int)
    requires u == w + 0x1_0000 * m
    ensures ToI16(u) == ToI16(w)
  {
  }

  /** The final cast removes a multiple of 2^16. */
  lemma CastRemoves(u: int) returns (m: int)
    ensures ToI16(u) == u - 0x1_0000 * m
  {
    m := (u + 0x8000) / 0x1_0000;
  }

  // ---------------------------------------------------------------- bounds without divisions

  /** 2^29 times a round but for its truncations, with the two occurrences of the estimate
    told apart. */
  function Cubic(h: int, out: int, inner: int): int {
    out * (0x4000_0000 + h * inner)
  }

  lemma EstimateNearCubic(h: int, out: q15)
    requires 0 <= h < 0x8000
    ensures Cubic(h, out, out) - 0x6000_0000 <= 0x2000_0000 * Estimate(h, out) <= Cubic(h, out, out) + 0x4000_0000
  {
    var y, v: int := h * out, out;
    var t := 0x7FFF - (-y) / 0x8000;
    DivMod(-y, 0x8000);
    DivMod(v * t, 0x4000);
    var rest := 0x8000 * t - (0x4000_0000 + y);
    assert -0x8000 <= rest <= 0;
    ProductBound(v, 0x8000, rest + 0x4000, 0x4000);
    Expand(v, t, y, rest);
  }

  lemma Expand(v: int, t: int, y: int, rest: int)
    requires 0x8000 * t == 0x4000_0000 + y + rest
    ensures 0x8000 * (v * t) == v * (0x4000_0000 + y) + v * (rest + 0x4000) - 0x4000 * v
  {
    assert 0x8000 * (v * t) == v * (0x8000 * t);
    Distribute(0x4000_0000 + y, rest, v);
  }

  lemma CubicGrows(h: int, h': int, out: int, out': int)
    requires 0 <= h <= h' && 0 <= out <= out'
    ensures Cubic(h, out, out) <= Cubic(h', out', out')
  {
    MulLe(h, h', out);
    MulLe(out, out', h');
    MulLe(0, h, out);
    MulLe(out, out', 0x4000_0000 + h * out);
    MulLe(0x4000_0000 + h * out, 0x4000_0000 + h' * out', out');
  }

  lemma CubicGrowsNegative(h: int, h': int, out: int, out': int, inner: int, inner': int)
    requires 0 <= h <= h' && h < 0x8000
    requires out <= out' < 0 && -0x8000 <= inner' <= inner < 0
    ensures Cubic(h, out, inner) <= Cubic(h', out', inner')
  {
    var f, f' := 0x4000_0000 + h * inner, 0x4000_0000 + h' * inner';
    MulLe(h, h', -inner');
    MulLe(inner', inner, h);
    assert h * -inner' == -(h * inner') && h' * -inner' == -(h' * inner');
    assert f' <= f;
    ProductBound(h, 0x7FFF, inner, 0x8000);
    MulLe(out, out', f);
    MulLe(f', f, -out');
    assert f' * -out' == -(out' * f') && f * -out' == -(out' * f);
  }

  /** Least and greatest cubic over lo <= h <= hi and low <= out <= high, where the estimates
    have one sign. */
  function Least(lo: int, low: int, high: int): int {
    Cubic(lo, low, if low >= 0 then low else high)
  }

  function Greatest(hi: int, low: int, high: int): int {
    Cubic(hi, high, if low >= 0 then high else low)
  }

  lemma Enclosed(lo: int, h: int, hi: int, low: int, out: int, high: int)
    requires 0 <= lo <= h <= hi && h < 0x8000
    requires -0x8000 <= low <= out <= high && (0 <= low || high < 0)
    ensures Least(lo, low, high) <= Cubic(h, out, out) <= Greatest(hi, low, high)
  {
    if 0 <= low {
      CubicGrows(lo, h, low, out);
      CubicGrows(h, hi, out, high);
    } else {
      CubicGrowsNegative(lo, h, low, out, high, out);
      CubicGrowsNegative(h, hi, out, high, out, low);
    }
  }

  /** The reciprocal d of h, and all values accurate enough for it, have h * d between
    2^29 - 2^17 and 2^29. The value w, known to 2^29 * w in [least, greatest], is not -d
    modulo 2^16 when 2^16 * m - w is too small for every h and 2^16 * (m + 1) - w too large. */
  predicate Apart(lo: int, hi: int, least: int, greatest: int, m: int) {
    && hi * (0x2000_0000_0000 * m - least) < 0x3FF_C000_0000_0000
    && 0x400_0000_0000_0000 < lo * (0x2000_0000_0000 * (m + 1) - greatest)
  }

  lemma NotReciprocal(lo: int, h: int, hi: int, least: int, w: int, greatest: int, m: int, k: int)
    requires 0 < lo <= h <= hi && least <= 0x2000_0000 * w <= greatest && Apart(lo, hi, least, greatest, m)
    ensures !(0 <= 0x2000_0000 + h * (w - 0x1_0000 * k) <= 0x2_0000)
  {
    var d := 0x1_0000 * k - w;
    assert h * (w - 0x1_0000 * k) == -(h * d);
    if 0x1FFE_0000 <= h * d <= 0x2000_0000 {
      if d < 0 { MulLe(d, -1, h); }
      MulLe(lo, h, d);
      MulLe(h, hi, d);
      if k <= m { TooSmall(hi, d, 0x2000_0000_0000 * m - least); }
      if k > m { TooLarge(lo, d, 0x2000_0000_0000 * (m + 1) - greatest); }
      assert false;
    }
  }

  lemma TooSmall(hi: int, d: int, z: int)
    requires 0 < hi && 0x2000_0000 * d <= z && hi * z < 0x3FF_C000_0000_0000
    ensures hi * d < 0x1FFE_0000
  {
    MulLe(0x2000_0000 * d, z, hi);
    Associate(0x2000_0000, d, hi);
  }

  lemma TooLarge(lo: int, d: int, z: int)
    requires 0 < lo && z <= 0x2000_0000 * d && 0x400_0000_0000_0000 < lo * z
    ensures 0x2000_0000 < lo * d
  {
    MulLe(z, 0x2000_0000 * d, lo);
    Associate(0x2000_0000, d, lo);
  }

  // ---------------------------------------------------------------- one table for all arguments

  /** The point of the bucket of -h whose reciprocal is the seed: 0xE0 above its lower end. */
  function PointFor(h: int): (point: int)
    requires 0x4000 < h <= 0x8000
    ensures 0x4000 < point < 0x8000
  {
    0xC0E0 - 0x100 * ((h + 0xFF) / 0x100)
  }

  function SeedFor(h: int): (seed: q15)
    requires 0x4000 < h <= 0x8000
    ensures 0 <= seed && seed * PointFor(h) <= 0x2000_0000 < (seed + 1) * PointFor(h)
  {
    SeedFitsQ15(PointFor(h));
    DivMod(0x2000_0000, PointFor(h));
    0x2000_0000 / PointFor(h)
  }

  lemma SeedBetween(lo: int, h: int, hi: int, s: int, s': int)
    requires 0x4000 < lo <= h <= hi <= 0x8000
    requires 0 <= s && s * PointFor(lo) <= 0x2000_0000 < (s' + 1) * PointFor(hi)
    ensures s <= SeedFor(h) <= s'
  {
    DivMonotone(lo + 0xFF, h + 0xFF, 0x100);
    DivMonotone(h + 0xFF, hi + 0xFF, 0x100);
    var seed: int, p := SeedFor(h), PointFor(h);
    MulLe(p, PointFor(lo), s);
    MulLe(PointFor(hi), p, seed);
    if seed < s { MulLe(seed + 1, s, p); }
    if s' < seed { MulLe(s' + 1, seed, PointFor(hi)); }
  }

  ghost predicate Missed(h: int)
    requires 0x4000 < h < 0x8000
  {
    !(0 <= 0x2000_0000 + h * RoundsQ15(-h, SeedFor(h), 2) <= 0x2_0000)
  }

  /** A test on the ends of the interval lo <= h <= hi. Its seeds lie in [s, s']; the first
    rounds, less 2^16 * k, lie in [low, high], which is in the range of the cast and has one
    sign; the second rounds then miss the reciprocals. */
  predicate Misses(lo: int, hi: int, s: int, s': int, k: int, low: int, high: int, m: int) {
    && 0x4000 < lo <= hi <= 0x8000
    && 0 <= s && s * PointFor(lo) <= 0x2000_0000 < (s' + 1) * PointFor(hi)
    && 0x2000_0000 * low <= Cubic(lo, s, s) - 0x2000_0000_0000 * k - 0x6000_0000
    && Cubic(hi, s', s') - 0x2000_0000_0000 * k + 0x4000_0000 <= 0x2000_0000 * high
    && -0x8000 <= low && high < 0x8000
    && (0 <= low || high < 0)
    && Apart(lo, hi, Least(lo, low, high) - 0x6000_0000, Greatest(hi, low, high) + 0x4000_0000, m)
  }

  lemma FirstRound(lo: int, h: int, hi: int, s: int, seed: q15, s': int, k: int, low: int, high: int)
    requires 0 < lo <= h <= hi && h < 0x8000 && 0 <= s <= seed <= s'
    requires 0x2000_0000 * low <= Cubic(lo, s, s) - 0x2000_0000_0000 * k - 0x6000_0000
    requires Cubic(hi, s', s') - 0x2000_0000_0000 * k + 0x4000_0000 <= 0x2000_0000 * high
    requires -0x8000 <= low && high < 0x8000
    ensures low <= RoundQ15(-h, seed) <= high
  {
    CubicGrows(lo, h, s, seed);
    CubicGrows(h, hi, seed, s');
    EstimateNearCubic(h, seed);
    AnyRound(h, seed);
    hide Cubic, Estimate, RoundQ15;
    SameLow(Estimate(h, seed), Estimate(h, seed) - 0x1_0000 * k, k);
  }

  lemma Miss(h: int, lo: int, hi: int, s: int, s': int, k: int, low: int, high: int, m: int)
    requires lo <= h <= hi && h < 0x8000 && Misses(lo, hi, s, s', k, low, high, m)
    ensures Missed(h)
  {
    hide Cubic, Estimate, Least, Greatest, Apart, SeedFor, PointFor, RoundQ15, RoundsQ15, ToI16;
    SeedBetween(lo, h, hi, s, s');
    var seed := SeedFor(h);
    FirstRound(lo, h, hi, s, seed, s', k, low, high);
    var out := RoundQ15(-h, seed);
    TwoRounds(-h, seed);
    AnyRound(h, out);
    Enclosed(lo, h, hi, low, out, high);
    EstimateNearCubic(h, out);
    var w := Estimate(h, out);
    var k' := CastRemoves(w);
    assert RoundsQ15(-h, seed, 2) == w - 0x1_0000 * k';
    NotReciprocal(lo, h, hi, Least(lo, low, high) - 0x6000_0000, w, Greatest(hi, low, high) + 0x4000_0000, m, k');
  }

  lemma TwoRounds(a: q15, seed: q15)
    ensures RoundsQ15(a, seed, 2) == RoundQ15(a, RoundQ15(a, seed))
  {
    assert RoundsQ15(a, seed, 1) == RoundQ15(a, RoundsQ15(a, seed, 0));
  }

  // The intervals are short where the first round comes near the reciprocal.

  lemma LowMissed(h: int)
    requires 16385 <= h <= 29696
    ensures Missed(h)
  {
    hide Missed;
    if h <= 17020 { Miss(h, 16385, 17020, 16400, 16660, 1, -24531, -23414, 0); }
    else if h <= 17664 { Miss(h, 17021, 17664, 16660, 16929, 1, -23420, -22246, 0); }
    else if h <= 18432 { Miss(h, 17665, 18432, 17067, 17349, 1, -21821, -20502, 0); }
    else if h <= 19385 { Miss(h, 18433, 19385, 17494, 17943, 1, -20044, -18023, 0); }
    else if h <= 20480 { Miss(h, 19386, 20480, 17943, 18579, 1, -18028, -15208, 0); }
    else if h <= 22272 { Miss(h, 20481, 22272, 18745, 19807, 1, -14645, -9644, 0); }
    else if h <= 24576 { Miss(h, 22273, 24576, 19996, 21648, 1, -8959, -785, 0); }
    else if h <= 27648 { Miss(h, 24577, 27648, 21873, 24708, 1, 108, 15322, 0); }
    else { Miss(h, 27649, 29696, 25003, 27280, 1, 16662, 30190, 1); }
  }

  lemma MiddleMissed(h: int)
    requires 29697 <= h <= 31488
    ensures Missed(h)
  {
    hide Missed;
    if h <= 29952 { Miss(h, 29697, 29952, 27639, 27639, 1, 31994, 32363, 2); }
    else if h <= 30720 { Miss(h, 29953, 30720, 28008, 28777, 2, -31294, -26130, 0); }
    else if h <= 30976 { Miss(h, 30721, 30976, 29177, 29177, 2, -24008, -23598, 0); }
    else if h <= 31232 { Miss(h, 30977, 31232, 29589, 29589, 2, -21381, -20960, 0); }
    else if h <= 31279 { Miss(h, 31233, 31279, 30012, 30012, 2, -18651, -18568, 0); }
    else if h <= 31323 { Miss(h, 31280, 31323, 30012, 30012, 2, -18572, -18494, 0); }
    else if h <= 31363 { Miss(h, 31324, 31363, 30012, 30012, 2, -18499, -18427, 0); }
    else if h <= 31401 { Miss(h, 31364, 31401, 30012, 30012, 2, -18431, -18363, 0); }
    else if h <= 31436 { Miss(h, 31402, 31436, 30012, 30012, 2, -18368, -18305, 0); }
    else if h <= 31468 { Miss(h, 31437, 31468, 30012, 30012, 2, -18309, -18251, 0); }
    else { Miss(h, 31469, 31488, 30012, 30012, 2, -18255, -18217, 0); }
  }

  lemma HighMissed(h: int)
    requires 31489 <= h <= 32767
    ensures Missed(h)
  {
    hide Missed;
    if h <= 31525 { Miss(h, 31489, 31525, 30448, 30448, 2, -15804, -15735, 0); }
    else if h <= 31565 { Miss(h, 31526, 31565, 30448, 30448, 2, -15740, -15666, 0); }
    else if h <= 31609 { Miss(h, 31566, 31609, 30448, 30448, 2, -15671, -15590, 0); }
    else if h <= 31657 { Miss(h, 31610, 31657, 30448, 30448, 2, -15595, -15507, 0); }
    else if h <= 31710 { Miss(h, 31658, 31710, 30448, 30448, 2, -15512, -15416, 0); }
    else if h <= 31744 { Miss(h, 31711, 31744, 30448, 30448, 2, -15420, -15357, 0); }
    else if h <= 32000 { Miss(h, 31745, 32000, 30897, 30897, 2, -12835, -12375, 0); }
    else if h <= 32512 { Miss(h, 32001, 32512, 31359, 31835, 2, -9741, -6026, 0); }
    else { Miss(h, 32513, 32767, 32326, 32326, 2, -3140, -2640, 0); }
  }

  // ---------------------------------------------------------------- the arguments one at a time

  /** A round given its two quotients and the multiple of 2^16 that the cast removes. */
  lemma RoundValue(h: int, out: q15, ratio: int, e: int, k: int)
    requires 0 <= h < 0x8000
    requires 0x8000 * ratio <= -(h * out) < 0x8000 * ratio + 0x8000
    requires 0x4000 * e <= out * (0x7FFF - ratio) < 0x4000 * e + 0x4000
    requires -0x8000 <= e - 0x1_0000 * k < 0x8000
    ensures RoundQ15(-h, out) == e - 0x1_0000 * k
  {
    var y, v: int := h * out, out;
    DivModUnique(-y, 0x8000, ratio, -y - 0x8000 * ratio);
    DivModUnique(v * (0x7FFF - ratio), 0x4000, e, v * (0x7FFF - ratio) - 0x4000 * e);
    AnyRound(h, out);
    SameLow(e, e - 0x1_0000 * k, k);
  }

  lemma TwoRoundsValue(h: int, seed: q15, ratio: int, e: int, k: int, ratio': int, e': int, k': int)
    requires 0 <= h < 0x8000
    requires 0x8000 * ratio <= -(h * seed) < 0x8000 * ratio + 0x8000
    requires 0x4000 * e <= seed * (0x7FFF - ratio) < 0x4000 * e + 0x4000
    requires -0x8000 <= e - 0x1_0000 * k < 0x8000
    requires 0x8000 * ratio' <= -(h * (e - 0x1_0000 * k)) < 0x8000 * ratio' + 0x8000
    requires 0x4000 * e' <= (e - 0x1_0000 * k) * (0x7FFF - ratio') < 0x4000 * e' + 0x4000
    requires -0x8000 <= e' - 0x1_0000 * k' < 0x8000
    ensures RoundsQ15(-h, seed, 2) == e' - 0x1_0000 * k'
  {
    hide RoundQ15, RoundsQ15;
    RoundValue(h, seed, ratio, e, k);
    RoundValue(h, e - 0x1_0000 * k, ratio', e', k');
    TwoRounds(-h, seed);
  }

  /** A negative argument is normalised as its absolute value is. */
  lemma NormalizeNegative(x: q15) returns (h: int)
    requires -0x8000 < x < 0
    ensures 0x4000 <= h < 0x8000 && NormalizedQ15(x) == x * Pow2(SignBitsQ15(x)) == -h
  {
    hide Pow2, LeadingZeros;
    var y: int := x;
    NormalizeQ15(-y);
    assert MagnitudeQ15(x) == MagnitudeQ15(-y);
    var p := Pow2(SignBitsQ15(x));
    h := (-y) * p;
    NegateProduct(y, p, h);
  }

  lemma NegateProduct(y: int, p: int, h: int)
    requires (-y) * p == h
    ensures y * p == -h
  {
  }

  /** What accuracy means for a negative argument, once it is normalised to -h. */
  lemma AccurateNegativeIff(x: q15, h: int, table: seq<q15>)
    requires x != -0x8000 && |table| >= INDEX_MASK_PLUS_ONE
    requires 0 <= h < 0x8000 && NormalizedQ15(x) == x * Pow2(SignBitsQ15(x)) == -h
    ensures AccurateQ15(x, table)
       <==> 0 <= 0x2000_0000 + h * RoundsQ15(-h, table[BucketQ15(-h)], 2) <= 0x2_0000
  {
    hide Pow2, SignBitsQ15, NormalizedQ15, BucketQ15, RoundsQ15;
    var dst: int := RecipQ15(x, table);
    var a := x * Pow2(SignBitsQ15(x));
    NegateProduct(h, dst, (-h) * dst);
    assert a * dst == -(h * dst);
  }

  /** The seed for any argument: its upper bits count the buckets modulo 64. */
  lemma BucketOfAny(a: q15)
    ensures BucketQ15(a) == (a / 0x100) % 0x40
  {
  }

  lemma BucketOfNegative(h: int)
    requires 0x4000 < h < 0x8000
    ensures BucketTableQ15(0xE0)[BucketQ15(-h)] == SeedFor(h)
  {
    var n := (h + 0xFF) / 0x100;
    assert (-h) / 0x100 == -n;
    assert BucketQ15(-h) == 128 - n;
  }

  /** The powers of two: the bucket of -0x4000 is the first. */
  lemma LeastMissed()
    ensures BucketQ15(-0x4000) == 0
    ensures RoundsQ15(-0x4000, BucketTableQ15(0xE0)[0], 2) == 25802
  {
    hide RoundsQ15;
    TwoRoundsValue(0x4000, 32326, -16163, 96539, 1, -15502, 91338, 1);
  }

  lemma NegativeMissed(x: q15)
    requires -0x8000 < x < 0
    ensures !AccurateQ15(x, BucketTableQ15(0xE0))
  {
    hide AccurateQ15, RoundsQ15, BucketQ15, SignBitsQ15, NormalizedQ15, SeedFor;
    var h := NormalizeNegative(x);
    AccurateNegativeIff(x, h, BucketTableQ15(0xE0));
    if h == 0x4000 {
      LeastMissed();
    } else {
      BucketOfNegative(h);
      if h <= 29696 { LowMissed(h); } else if h <= 31488 { MiddleMissed(h); } else { HighMissed(h); }
    }
  }

  /** With the table of the points 0xE0 above the bucket ends, a result is accurate exactly
    for a positive argument. */
  lemma AccurateWithUpperTableIff(x: q15)
    requires x != -0x8000
    ensures AccurateQ15(x, BucketTableQ15(0xE0)) <==> x > 0
  {
    if x > 0 {
      BucketTableIsGoodQ15(0xE0);
      GoodTableAccurateQ15(x, BucketTableQ15(0xE0));
    } else if x < 0 {
      NegativeMissed(x);
    }
  }

  /** The documented reciprocal can be relied on, whatever good table the program is linked
    with, exactly for a positive argument. */
  lemma AccurateWithEveryTableIff(x: q15)
    requires x != -0x8000
    ensures (forall table: seq<q15> | GoodTableQ15(table) :: AccurateQ15(x, table)) <==> x > 0
  {
    if x > 0 {
      forall table: seq<q15> | GoodTableQ15(table) ensures AccurateQ15(x, table) {
        GoodTableAccurateQ15(x, table);
      }
    } else {
      BucketTableIsGoodQ15(0xE0);
      AccurateWithUpperTableIff(x);
      assert GoodTableQ15(BucketTableQ15(0xE0));
    }
  }

  lemma SignBitsExamples()
    ensures SignBitsQ15(-1) == 14 && SignBitsQ15(-31479) == 0 && SignBitsQ15(0) == 15
  {
    assert Pow2(0) == 1;
    assert Pow2(14) == 0x4000 by { Pow2Values(); }
    hide Pow2;
    LeadingZerosUnique(1, 31);
    LeadingZerosUnique(31479, 17);
  }

  lemma NormalizedExamples()
    ensures NormalizedQ15(-1) == -1 * Pow2(SignBitsQ15(-1)) == -0x4000
    ensures NormalizedQ15(-31479) == -31479 * Pow2(SignBitsQ15(-31479)) == -31479
  {
    assert Pow2(0) == 1;
    assert Pow2(14) == 0x4000 by { Pow2Values(); }
    SignBitsExamples();
    hide Pow2, SignBitsQ15;
  }

  lemma BucketExamples()
    ensures BucketQ15(-0x4000) == 0 && BucketQ15(-31479) == 5
  {
  }

  /** The result for -1 with the midpoint table is positive. */
  lemma MinusOneFails()
    ensures RecipQ15(-1, BucketTableQ15(0x80)) == 28717
    ensures !AccurateQ15(-1, BucketTableQ15(0x80))
  {
    NormalizedExamples();
    BucketExamples();
    hide RoundsQ15, NormalizedQ15, SignBitsQ15, BucketQ15, Pow2;
    TwoRoundsValue(0x4000, 32513, -16257, 97284, 1, -15874, 94253, 1);
    AccurateNegativeIff(-1, 0x4000, BucketTableQ15(0x80));
  }

  lemma NegativeExample()
    ensures RoundsQ15(-31479, BucketTableQ15(0x80)[5], 2) == -17051
  {
    hide RoundsQ15;
    assert BucketTableQ15(0x80)[5] == 30174;
    TwoRoundsValue(31479, 30174, -28988, 113732, 2, 16657, -17051, 0);
  }

  /** Yet a negative argument can be accurate with one good table and not with another. */
  lemma AccuracyDependsOnTable()
    ensures AccurateQ15(-31479, BucketTableQ15(0x80)) && !AccurateQ15(-31479, BucketTableQ15(0xE0))
  {
    hide *;
    AccurateWithUpperTableIff(-31479);
    NormalizedExamples();
    BucketExamples();
    NegativeExample();
    AccurateNegativeIff(-31479, 31479, BucketTableQ15(0x80));
  }
}
