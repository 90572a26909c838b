/** The packed 16-bit multiply-accumulate intrinsics and the two-sample loads they work on.

  With ARM_MATH_DSP an intrinsic is the processor instruction of its name; without it, it is
  the C fallback of arm_math.h. The two differ in where they add.
  */
module PackedMac {
  import opened Arith
  import opened FixedPoint

  /** `read_q15x2`: four bytes copied from two consecutive little-endian samples. */
  function ReadQ15x2(lo: q15, hi: q15): q31 {
    ToI32(lo % 0x1_0000 + (hi % 0x1_0000) * 0x1_0000)
  }

  /** `((q31_t)x << 16) >> 16` */
  function LowHalf(x: u32): q31 {
    ToI32(ToI32(x) * 0x1_0000) / 0x1_0000
  }

  /** `((q31_t)x) >> 16` */
  function HighHalf(x: u32): q31 {
    ToI32(x) / 0x1_0000
  }

  /** `__SMUAD`: the instruction keeps the low 32 bits of the sum, as the fallback does. */
  function Smuad(x: u32, y: u32): u32 {
    ToU32(ToI32(ToI32(LowHalf(x) * LowHalf(y)) + ToI32(HighHalf(x) * HighHalf(y))))
  }

  /** The instruction SMLALD: both products are added to the 64-bit sum. */
  function SmlaldInstruction(x: u32, y: u32, sum: u64): u64 {
    ToU64(LowHalf(x) * LowHalf(y) + HighHalf(x) * HighHalf(y) + sum)
  }

  function SmlaldxInstruction(x: u32, y: u32, sum: u64): u64 {
    ToU64(LowHalf(x) * HighHalf(y) + HighHalf(x) * LowHalf(y) + sum)
  }

  /** The fallback: the two products are added as 32-bit integers before the 64-bit sum is
    added. */
  function Smlald(x: u32, y: u32, sum: u64): u64 {
    ToU64(ToI64(ToI32(ToI32(LowHalf(x) * LowHalf(y)) + ToI32(HighHalf(x) * HighHalf(y))) + ToI64(sum)))
  }

  function Smlaldx(x: u32, y: u32, sum: u64): u64 {
    ToU64(ToI64(ToI32(ToI32(LowHalf(x) * HighHalf(y)) + ToI32(HighHalf(x) * LowHalf(y))) + ToI64(sum)))
  }

  /** Loading two samples and taking the halves gives the samples back. */
  lemma HalvesOfRead(lo: q15, hi: q15)
    ensures LowHalf(ToU32(ReadQ15x2(lo, hi))) == lo
    ensures HighHalf(ToU32(ReadQ15x2(lo, hi))) == hi
  {
    var l, h := lo % 0x1_0000, hi % 0x1_0000;
    var w := ToU32(ReadQ15x2(lo, hi));
    WordOf(l + h * 0x1_0000);
    SignedWord(l, h, hi);
    DivModUnique(ToI32(w), 0x1_0000, hi, l);
    LowHalfOf(w, l, hi, lo);
  }

  lemma WordOf(w: int)
    requires 0 <= w < 0x1_0000_0000
    ensures ToU32(ToI32(w)) == w
  {
  }

  lemma SignedWord(l: int, h: int, hi: q15)
    requires 0 <= l < 0x1_0000 && h == hi % 0x1_0000
    ensures ToI32(l + h * 0x1_0000) == l + hi * 0x1_0000
  {
  }

  lemma LowHalfOf(w: u32, l: int, hi: int, lo: q15)
    requires ToI32(w) == l + hi * 0x1_0000 && l == lo % 0x1_0000
    ensures LowHalf(w) == lo
  {
    var v := ToI32(w) * 0x1_0000;
    var k := if lo < 0 then hi + 1 else hi;
    assert v == lo * 0x1_0000 + k * 0x1_0000_0000;
    WrapUnique32(v, lo * 0x1_0000, k);
  }

  lemma WrapUnique32(v: int, w: q31, k: int)
    requires v == w + k * 0x1_0000_0000
    ensures ToI32(v) == w
  {
  }

  /** A sign-extended 16-bit value: the high half holds only copies of the sign. */
  lemma HalvesOfSignExtended(x: q15)
    ensures LowHalf(ToU32(x)) == x
    ensures HighHalf(ToU32(x)) == if x < 0 then -1 else 0
  {
  }

  // ---------------------------------------------------------------- one step

  /** Both products are 2^30: the one pair whose 32-bit sum wraps. */
  predicate BothProductsMax(a: q15, b: q15, c: q15, d: q15) {
    a == -0x8000 && b == -0x8000 && c == -0x8000 && d == -0x8000
  }

  function Wrapped(a: q15, b: q15, c: q15, d: q15): nat {
    if BothProductsMax(a, b, c, d) then 1 else 0
  }

  lemma ProductQ15(a: q15, b: q15)
    ensures -0x4000_0000 < a * b <= 0x4000_0000
    ensures a * b == 0x4000_0000 <==> a == -0x8000 && b == -0x8000
  {
    var x: int, y: int := a, b;
    if x >= 0 {
      AbsBound(x, 0x7FFF, y, 0x8000);
    } else if y >= 0 {
      AbsBound(y, 0x7FFF, x, 0x8000);
    } else if x > -0x8000 {
      AbsBound(-x, 0x7FFF, y, 0x8000);
    } else if y > -0x8000 {
      AbsBound(-y, 0x7FFF, x, 0x8000);
    }
  }

  lemma SumOfProducts(a: q15, b: q15, c: q15, d: q15)
    ensures ToI32(ToI32(a * b) + ToI32(c * d)) == a * b + c * d - 0x1_0000_0000 * Wrapped(a, b, c, d)
  {
    ProductQ15(a, b);
    ProductQ15(c, d);
  }

  lemma ToU64IsMod(x: int)
    ensures ToU64(x) == x % 0x1_0000_0000_0000_0000
  {
  }

  lemma Add64(m: q31, sum: u64)
    ensures ToU64(ToI64(m + ToI64(sum))) == (sum + m) % 0x1_0000_0000_0000_0000
  {
  }

  lemma SmlaldStep(a0: q15, a1: q15, b0: q15, b1: q15, sum: u64)
    ensures Smlald(ToU32(ReadQ15x2(a0, a1)), ToU32(ReadQ15x2(b0, b1)), sum)
         == (sum + (a0 * b0 + a1 * b1 - 0x1_0000_0000 * Wrapped(a0, b0, a1, b1))) % 0x1_0000_0000_0000_0000
  {
    HalvesOfRead(a0, a1);
    HalvesOfRead(b0, b1);
    SumOfProducts(a0, b0, a1, b1);
    Add64(ToI32(ToI32(a0 * b0) + ToI32(a1 * b1)), sum);
  }

  lemma SmlaldxStep(a0: q15, a1: q15, b0: q15, b1: q15, sum: u64)
    ensures Smlaldx(ToU32(ReadQ15x2(a0, a1)), ToU32(ReadQ15x2(b0, b1)), sum)
         == (sum + (a0 * b1 + a1 * b0 - 0x1_0000_0000 * Wrapped(a0, b1, a1, b0))) % 0x1_0000_0000_0000_0000
  {
    HalvesOfRead(a0, a1);
    HalvesOfRead(b0, b1);
    SumOfProducts(a0, b1, a1, b0);
    Add64(ToI32(ToI32(a0 * b1) + ToI32(a1 * b0)), sum);
  }

  lemma InstructionStep(a0: q15, a1: q15, b0: q15, b1: q15, sum: u64)
    ensures SmlaldInstruction(ToU32(ReadQ15x2(a0, a1)), ToU32(ReadQ15x2(b0, b1)), sum)
         == (sum + (a0 * b0 + a1 * b1)) % 0x1_0000_0000_0000_0000
    ensures SmlaldxInstruction(ToU32(ReadQ15x2(a0, a1)), ToU32(ReadQ15x2(b0, b1)), sum)
         == (sum + (a0 * b1 + a1 * b0)) % 0x1_0000_0000_0000_0000
  {
    HalvesOfRead(a0, a1);
    HalvesOfRead(b0, b1);
    hide LowHalf, HighHalf, ReadQ15x2, ToU32;
    ToU64IsMod(a0 * b0 + a1 * b1 + sum);
    ToU64IsMod(a0 * b1 + a1 * b0 + sum);
  }

  // ---------------------------------------------------------------- whole arrays

  /** Which of the two definitions of the intrinsics is compiled. */
  datatype Build = Fallback | Dsp

  function MacStep(a0: q15, a1: q15, b0: q15, b1: q15, build: Build, crossed: bool, sum: u64): u64 {
    var x, y := ToU32(ReadQ15x2(a0, a1)), ToU32(ReadQ15x2(b0, b1));
    match build
    case Fallback => if crossed then Smlaldx(x, y, sum) else Smlald(x, y, sum)
    case Dsp => if crossed then SmlaldxInstruction(x, y, sum) else SmlaldInstruction(x, y, sum)
  }

  /** The step for the w-th pair of samples of two arrays. */
  function WordStep(a: seq<q15>, b: seq<q15>, build: Build, crossed: bool, sum: u64, w: nat): u64
    requires 2 * w + 1 < |a| && 2 * w + 1 < |b|
  {
    MacStep(a[2 * w], a[2 * w + 1], b[2 * w], b[2 * w + 1], build, crossed, sum)
  }

  /** Accumulating the first `words` pairs of two arrays, two samples a word, with `__SMLALD`
    or its crossed variant. */
  function MacFold(a: seq<q15>, b: seq<q15>, build: Build, crossed: bool, sum: u64, words: nat): u64
    requires 2 * words <= |a| && 2 * words <= |b|
  {
    if words == 0 then sum
    else WordStep(a, b, build, crossed, MacFold(a, b, build, crossed, sum, words - 1), words - 1)
  }

  function PairDot(a0: q15, a1: q15, b0: q15, b1: q15, crossed: bool): int {
    if crossed then a0 * b1 + a1 * b0 else a0 * b0 + a1 * b1
  }

  function WordDot(a: seq<q15>, b: seq<q15>, crossed: bool, w: nat): int
    requires 2 * w + 1 < |a| && 2 * w + 1 < |b|
  {
    PairDot(a[2 * w], a[2 * w + 1], b[2 * w], b[2 * w + 1], crossed)
  }

  /** The scalar dot product; crossed, each pair of samples of `b` is swapped. */
  function Dot(a: seq<q15>, b: seq<q15>, crossed: bool, words: nat): int
    requires 2 * words <= |a| && 2 * words <= |b|
  {
    if words == 0 then 0 else Dot(a, b, crossed, words - 1) + WordDot(a, b, crossed, words - 1)
  }

  /** One product at a time, over n samples. */
  function ScalarDot(a: seq<q15>, b: seq<int>, n: nat): int
    requires n <= |a| && n <= |b|
  {
    if n == 0 then 0 else ScalarDot(a, b, n - 1) + a[n - 1] * b[n - 1]
  }

  /** The samples of each word exchanged. */
  function Swapped(b: seq<q15>): (s: seq<int>)
    ensures |s| == |b|
  {
    seq(|b|, (i: nat) requires i < |b| =>
      if i % 2 == 1 then b[i - 1] else if i + 1 < |b| then b[i + 1] else b[i])
  }

  /** Adding up words is adding up samples. */
  lemma {:induction false} DotIsScalar(a: seq<q15>, b: seq<q15>, words: nat)
    requires 2 * words <= |a| && 2 * words <= |b|
    ensures Dot(a, b, false, words) == ScalarDot(a, b, 2 * words)
    ensures Dot(a, b, true, words) == ScalarDot(a, Swapped(b), 2 * words)
  {
    if words > 0 {
      DotIsScalar(a, b, words - 1);
      TwoSamples(a, b, words - 1, 2 * (words - 1));
    }
  }

  lemma TwoSamples(a: seq<q15>, b: seq<q15>, w: nat, n: nat)
    requires n == 2 * w && n + 2 <= |a| && n + 2 <= |b|
    ensures ScalarDot(a, b, n + 2) == ScalarDot(a, b, n) + WordDot(a, b, false, w)
    ensures ScalarDot(a, Swapped(b), n + 2) == ScalarDot(a, Swapped(b), n) + WordDot(a, b, true, w)
  {
    var s := Swapped(b);
    assert s[n] == b[n + 1] && s[n + 1] == b[n];
    hide Swapped;
    LastTwo(a, b, n);
    LastTwo(a, s, n);
  }

  lemma LastTwo(a: seq<q15>, b: seq<int>, n: nat)
    requires n + 2 <= |a| && n + 2 <= |b|
    ensures ScalarDot(a, b, n + 2) == ScalarDot(a, b, n) + a[n] * b[n] + a[n + 1] * b[n + 1]
  {
    assert ScalarDot(a, b, n + 1) == ScalarDot(a, b, n) + a[n] * b[n];
  }

  predicate WordWraps(a: seq<q15>, b: seq<q15>, w: nat)
    requires 2 * w + 1 < |a| && 2 * w + 1 < |b|
  {
    BothProductsMax(a[2 * w], b[2 * w], a[2 * w + 1], b[2 * w + 1])
  }

  function CountWrapped(a: seq<q15>, b: seq<q15>, words: nat): (n: nat)
    requires 2 * words <= |a| && 2 * words <= |b|
    ensures n <= words
    ensures n == 0 <==> forall w :: 0 <= w < words ==> !WordWraps(a, b, w)
  {
    if words == 0 then 0
    else CountWrapped(a, b, words - 1) + if WordWraps(a, b, words - 1) then 1 else 0
  }

  /** What a step loses: only the fallback can wrap, and only for one pair. */
  function Lost(build: Build, wraps: bool): int {
    if build == Fallback && wraps then 0x1_0000_0000 else 0
  }

  lemma MacStepExact(a0: q15, a1: q15, b0: q15, b1: q15, build: Build, crossed: bool, sum: u64)
    ensures MacStep(a0, a1, b0, b1, build, crossed, sum)
         == (sum + (PairDot(a0, a1, b0, b1, crossed) - Lost(build, BothProductsMax(a0, b0, a1, b1))))
              % 0x1_0000_0000_0000_0000
  {
    hide Smlald, Smlaldx, SmlaldInstruction, SmlaldxInstruction;
    InstructionStep(a0, a1, b0, b1, sum);
    SmlaldxStep(a0, a1, b0, b1, sum);
    SmlaldStep(a0, a1, b0, b1, sum);
  }

  /** How often the fold wraps at 32 bits. */
  function Wraps(a: seq<q15>, b: seq<q15>, build: Build, words: nat): nat
    requires 2 * words <= |a| && 2 * words <= |b|
  {
    if build == Fallback then CountWrapped(a, b, words) else 0
  }

  /** The fold is the dot product modulo 2^64; with the fallback, less 2^32 for every wrapping
    pair. */
  lemma {:induction false} MacFoldExact(a: seq<q15>, b: seq<q15>, build: Build, crossed: bool, sum: u64, words: nat)
    requires 2 * words <= |a| && 2 * words <= |b|
    ensures MacFold(a, b, build, crossed, sum, words)
         == (sum + Dot(a, b, crossed, words) - 0x1_0000_0000 * Wraps(a, b, build, words)) % 0x1_0000_0000_0000_0000
  {
    hide WordStep, WordDot, WordWraps, Wraps, Lost;
    if words == 0 {
      ToU64IsMod(sum);
      WrapsOfNothing(a, b, build);
    } else {
      MacFoldExact(a, b, build, crossed, sum, words - 1);
      var previous := MacFold(a, b, build, crossed, sum, words - 1);
      WordStepExact(a, b, build, crossed, previous, words - 1);
      WrapsUnfold(a, b, build, words);
      ModStep(MacFold(a, b, build, crossed, sum, words), previous,
              sum + Dot(a, b, crossed, words - 1) - 0x1_0000_0000 * Wraps(a, b, build, words - 1),
              WordDot(a, b, crossed, words - 1) - Lost(build, WordWraps(a, b, words - 1)),
              sum + Dot(a, b, crossed, words) - 0x1_0000_0000 * Wraps(a, b, build, words));
    }
  }

  lemma WordStepExact(a: seq<q15>, b: seq<q15>, build: Build, crossed: bool, sum: u64, w: nat)
    requires 2 * w + 1 < |a| && 2 * w + 1 < |b|
    ensures WordStep(a, b, build, crossed, sum, w)
         == (sum + (WordDot(a, b, crossed, w) - Lost(build, WordWraps(a, b, w)))) % 0x1_0000_0000_0000_0000
  {
    hide MacStep, PairDot, BothProductsMax, Lost;
    MacStepExact(a[2 * w], a[2 * w + 1], b[2 * w], b[2 * w + 1], build, crossed, sum);
  }

  lemma WrapsOfNothing(a: seq<q15>, b: seq<q15>, build: Build)
    ensures Wraps(a, b, build, 0) == 0
  {
  }

  lemma WrapsUnfold(a: seq<q15>, b: seq<q15>, build: Build, words: nat)
    requires 0 < words && 2 * words <= |a| && 2 * words <= |b|
    ensures 0x1_0000_0000 * Wraps(a, b, build, words)
         == 0x1_0000_0000 * Wraps(a, b, build, words - 1) + Lost(build, WordWraps(a, b, words - 1))
  {
    hide WordWraps;
  }

  lemma ModStep(after: int, previous: int, before: int, step: int, total: int)
    requires previous == before % 0x1_0000_0000_0000_0000
    requires after == (previous + step) % 0x1_0000_0000_0000_0000
    requires total == before + step
    ensures after == total % 0x1_0000_0000_0000_0000
  {
    ModAbsorbs(before, step, 0x1_0000_0000_0000_0000);
  }

  /** Packed and scalar accumulation agree modulo 2^64 always in the DSP build, and with the
    fallback exactly when no pair of samples has both products equal to 2^30. (A 32-bit
    address space holds fewer than 2^32 words.) */
  lemma MacFoldIsDotIff(a: seq<q15>, b: seq<q15>, build: Build, crossed: bool, sum: u64, words: nat)
    requires 2 * words <= |a| && 2 * words <= |b| && words < 0x1_0000_0000
    ensures MacFold(a, b, build, crossed, sum, words) == (sum + Dot(a, b, crossed, words)) % 0x1_0000_0000_0000_0000
       <==> build == Dsp || forall w :: 0 <= w < words ==> !WordWraps(a, b, w)
  {
    MacFoldExact(a, b, build, crossed, sum, words);
    DifferentResidues(sum + Dot(a, b, crossed, words), Wraps(a, b, build, words));
  }

  lemma DifferentResidues(x: int, n: nat)
    requires n < 0x1_0000_0000
    ensures (x - 0x1_0000_0000 * n) % 0x1_0000_0000_0000_0000 == x % 0x1_0000_0000_0000_0000 <==> n == 0
  {
  }

  /** One word on which the fallback fails: all four samples least. */
  lemma FallbackLosesWord()
    ensures var low := [-0x8000, -0x8000];
            && Dot(low, low, false, 1) == 0x8000_0000
            && MacFold(low, low, Dsp, false, 0, 1) == 0x8000_0000
            && MacFold(low, low, Fallback, false, 0, 1) != 0x8000_0000
  {
    hide WordStep;
    var low := [-0x8000, -0x8000];
    assert WordWraps(low, low, 0);
    assert Dot(low, low, false, 0) == 0;
    MacFoldExact(low, low, Dsp, false, 0, 1);
    MacFoldIsDotIff(low, low, Fallback, false, 0, 1);
  }
}
