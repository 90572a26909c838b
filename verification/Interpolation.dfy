/** Table interpolation, linear and bilinear, in Q15 and Q7.

  An argument is in 12.20 format: the upper 12 bits are the table index, the lower 20 the
  fraction. The weights of the two neighbours add up to 2^20 - 1, not 2^20.
  */
module Interpolation {
  import opened Arith
  import opened FixedPoint

  const MAX_FRACT: int := 0xF_FFFF

  function Min(a: int, b: int): int { if a <= b then a else b }

  function Max(a: int, b: int): int { if a <= b then b else a }

  /** `(x & 0xFFF00000) >> 20` */
  function Index(x: q31): int {
    (x - x % 0x10_0000) / 0x10_0000
  }

  function Fract(x: q31): int {
    x % 0x10_0000
  }

  // ---------------------------------------------------------------- linear

  function LinearQ15(table: seq<q15>, x: q31): q15
    requires 1 <= |table| <= 0x8000_0000
  {
    var index := Index(x);
    if index >= |table| - 1 then table[|table| - 1]
    else if index < 0 then table[0]
    else
      var fract := Fract(x);
      var y := ToI64(table[index] * (MAX_FRACT - fract));
      var sum := ToI64(y + ToI64(table[index + 1] * fract));
      ToI16(sum / 0x10_0000)
  }

  function LinearQ7(table: seq<q7>, x: q31): q7
    requires 1 <= |table| <= 0x8000_0000
  {
    if x < 0 then table[0]
    else
      var index := (x / 0x10_0000) % 0x1000;
      if index >= |table| - 1 then table[|table| - 1]
      else
        var fract := Fract(x);
        var y := ToI32(table[index] * (MAX_FRACT - fract));
        var sum := ToI32(y + ToI32(table[index + 1] * fract));
        ToI8(sum / 0x10_0000)
  }

  /** The weighted mean of two neighbours, rounded down. */
  function Blend(y0: int, y1: int, fract: int): int {
    (y0 * (MAX_FRACT - fract) + y1 * fract) / 0x10_0000
  }

  /** What both formats compute, without machine arithmetic. */
  function Lookup(table: seq<int>, x: int): int
    requires |table| >= 1
  {
    if x / 0x10_0000 >= |table| - 1 then table[|table| - 1]
    else if x < 0 then table[0]
    else Blend(table[x / 0x10_0000], table[x / 0x10_0000 + 1], x % 0x10_0000)
  }

  lemma Mixed(y0: int, y1: int, a: int, b: int, lo: int, hi: int)
    requires lo <= y0 <= hi && lo <= y1 <= hi && 0 <= a && 0 <= b
    ensures lo * (a + b) <= y0 * a + y1 * b <= hi * (a + b)
  {
    MulLe(lo, y0, a);
    MulLe(lo, y1, b);
    MulLe(y0, hi, a);
    MulLe(y1, hi, b);
    Distribute(a, b, lo);
    Distribute(a, b, hi);
  }

  /** The mean stays within the two neighbours, except that a positive lower one can be
    undercut by one unit. */
  lemma BlendBounds(y0: int, y1: int, fract: int, lo: int, hi: int)
    requires -0x8000 <= lo <= y0 <= hi < 0x8000 && lo <= y1 <= hi && 0 <= fract <= MAX_FRACT
    ensures lo - 1 <= Blend(y0, y1, fract) <= hi
    ensures lo <= 0 ==> lo <= Blend(y0, y1, fract)
  {
    Mixed(y0, y1, MAX_FRACT - fract, fract, lo, hi);
    ScaledDown(y0 * (MAX_FRACT - fract) + y1 * fract, lo, hi);
  }

  lemma ScaledDown(sum: int, lo: int, hi: int)
    requires -0x8000 <= lo <= hi < 0x8000 && lo * MAX_FRACT <= sum <= hi * MAX_FRACT
    ensures lo - 1 <= sum / 0x10_0000 <= hi
    ensures lo <= 0 ==> lo <= sum / 0x10_0000
  {
  }

  /** Every value of the Q15 version is the one it would be without machine arithmetic. */
  predicate BlendFitsQ15(y0: int, y1: int, fract: int) {
    && FitsQ63(y0 * (MAX_FRACT - fract)) && FitsQ63(y1 * fract)
    && FitsQ63(y0 * (MAX_FRACT - fract) + y1 * fract)
    && FitsQ15(Blend(y0, y1, fract))
  }

  predicate BlendFitsQ7(y0: int, y1: int, fract: int) {
    && FitsQ31(y0 * (MAX_FRACT - fract)) && FitsQ31(y1 * fract)
    && FitsQ31(y0 * (MAX_FRACT - fract) + y1 * fract)
    && FitsQ7(Blend(y0, y1, fract))
  }

  lemma LinearQ15IsLookup(table: seq<q15>, x: q31)
    requires 1 <= |table| <= 0x8000_0000
    ensures LinearQ15(table, x) == Lookup(table, x)
    ensures 0 <= x / 0x10_0000 < |table| - 1 ==>
              BlendFitsQ15(table[x / 0x10_0000], table[x / 0x10_0000 + 1], Fract(x))
  {
    var index := x / 0x10_0000;
    DivMod(x, 0x10_0000);
    DivModUnique(x - x % 0x10_0000, 0x10_0000, index, 0);
    if 0 <= index < |table| - 1 {
      ProductBound(table[index], 0x8000, MAX_FRACT - Fract(x), MAX_FRACT);
      ProductBound(table[index + 1], 0x8000, Fract(x), MAX_FRACT);
      BlendBounds(table[index], table[index + 1], Fract(x), -0x8000, 0x7FFF);
    }
  }

  lemma LinearQ7IsLookup(table: seq<q7>, x: q31)
    requires 1 <= |table| <= 0x8000_0000
    ensures LinearQ7(table, x) == Lookup(table, x)
    ensures 0 <= x / 0x10_0000 < |table| - 1 ==>
              BlendFitsQ7(table[x / 0x10_0000], table[x / 0x10_0000 + 1], Fract(x))
  {
    var index := x / 0x10_0000;
    if 0 <= x {
      IndexQ7(x);
      if index < |table| - 1 { BlendQ7(table[index], table[index + 1], Fract(x)); }
    }
  }

  lemma IndexQ7(x: q31)
    requires 0 <= x
    ensures 0 <= x / 0x10_0000 == (x / 0x10_0000) % 0x1000
  {
  }

  lemma BlendQ7(y0: q7, y1: q7, fract: int)
    requires 0 <= fract <= MAX_FRACT
    ensures ToI8(ToI32(ToI32(y0 * (MAX_FRACT - fract)) + ToI32(y1 * fract)) / 0x10_0000) == Blend(y0, y1, fract)
    ensures BlendFitsQ7(y0, y1, fract)
  {
    ProductBound(y0, 0x80, MAX_FRACT - fract, MAX_FRACT);
    ProductBound(y1, 0x80, fract, MAX_FRACT);
    BlendBounds(y0, y1, fract, -0x80, 0x7F);
  }

  predicate IsTable(table: seq<int>) {
    |table| >= 1 && forall i :: 0 <= i < |table| ==> -0x8000 <= table[i] < 0x8000
  }

  predicate NonDecreasing(table: seq<int>) {
    forall i, j :: 0 <= i <= j < |table| ==> table[i] <= table[j]
  }

  /** The value at a table point: one unit low for a positive entry. */
  function AtPoint(y: int): int {
    if y > 0 then y - 1 else y
  }

  /** Both ends of every cell evaluate to the entry there, or one less if it is positive. */
  lemma BlendEnds(y0: int, y1: int)
    requires -0x8000 <= y0 < 0x8000 && -0x8000 <= y1 < 0x8000
    ensures Blend(y0, y1, 0) == AtPoint(y0)
    ensures Blend(y0, y1, MAX_FRACT) == AtPoint(y1)
  {
  }

  lemma BlendMonotone(y0: int, y1: int, f: int, f': int)
    requires y0 <= y1 && 0 <= f <= f' <= MAX_FRACT
    ensures Blend(y0, y1, f) <= Blend(y0, y1, f')
  {
    MulLe(f, f', y1 - y0);
    Distribute(y1, y0, f);
    Distribute(y1, y0, f');
    Distribute(MAX_FRACT, f, y0);
    Distribute(MAX_FRACT, f', y0);
    DivMonotone(y0 * (MAX_FRACT - f) + y1 * f, y0 * (MAX_FRACT - f') + y1 * f', 0x10_0000);
  }

  /** A cell of a nondecreasing table stays between its end values. */
  lemma CellBounds(table: seq<int>, x: int)
    requires IsTable(table) && NonDecreasing(table) && 0 <= x && x / 0x10_0000 < |table| - 1
    ensures AtPoint(table[x / 0x10_0000]) <= Lookup(table, x) <= AtPoint(table[x / 0x10_0000 + 1])
  {
    var y0, y1 := table[x / 0x10_0000], table[x / 0x10_0000 + 1];
    BlendEnds(y0, y1);
    BlendMonotone(y0, y1, 0, x % 0x10_0000);
    BlendMonotone(y0, y1, x % 0x10_0000, MAX_FRACT);
  }

  /** A nondecreasing table gives a nondecreasing function of all non-negative arguments:
    inside cells, across their boundaries and into the clamped tail. */
  lemma LookupMonotone(table: seq<int>, x: int, x': int)
    requires IsTable(table) && NonDecreasing(table) && 0 <= x <= x'
    ensures Lookup(table, x) <= Lookup(table, x')
  {
    var i, i', n := x / 0x10_0000, x' / 0x10_0000, |table|;
    if i < n - 1 {
      CellBounds(table, x);
      if i' < n - 1 {
        CellBounds(table, x');
        if i == i' { BlendMonotone(table[i], table[i + 1], x % 0x10_0000, x' % 0x10_0000); }
      }
    }
  }

  /** For negative arguments the first entry itself is returned, not the value just above
    zero; so over all 32-bit arguments the function is nondecreasing exactly when there is
    only one entry or the first one is not positive. */
  lemma LookupMonotoneEverywhereIff(table: seq<int>)
    requires IsTable(table) && NonDecreasing(table)
    ensures (forall x: q31, x': q31 | x <= x' :: Lookup(table, x) <= Lookup(table, x'))
       <==> |table| == 1 || table[0] <= 0
  {
    if |table| == 1 || table[0] <= 0 {
      forall x: q31, x': q31 | x <= x' ensures Lookup(table, x) <= Lookup(table, x') {
        if 0 <= x {
          LookupMonotone(table, x, x');
        } else if 0 <= x' {
          LookupMonotone(table, 0, x');
          if |table| > 1 { CellBounds(table, 0); }
        }
      }
    } else {
      BlendEnds(table[0], table[1]);
      assert Lookup(table, -1) > Lookup(table, 0);
    }
  }

  /** The function steps down at zero although the table is constant. */
  lemma LookupStepsDown()
    ensures Lookup([1, 1], -1) == 1 && Lookup([1, 1], 0) == 0
  {
    var table := [1, 1];
    BlendEnds(table[0], table[1]);
  }

  /** Both formats on every argument, for every table: the first entry below zero, the last one
    from the last table point on, and the weighted mean of two neighbours between. */
  lemma LinearValues(table15: seq<q15>, table7: seq<q7>, x: q31)
    requires 1 <= |table15| <= 0x8000_0000 && 1 <= |table7| <= 0x8000_0000
    ensures LinearQ15(table15, x) == LinearValue(table15, x)
    ensures LinearQ7(table7, x) == LinearValue(table7, x)
  {
    LinearQ15IsLookup(table15, x);
    LinearQ7IsLookup(table7, x);
    hide LinearQ15, LinearQ7;
    DivMod(x, 0x10_0000);
  }

  function LinearValue(table: seq<int>, x: int): int
    requires |table| >= 1
  {
    if x >= (|table| - 1) * 0x10_0000 then table[|table| - 1]
    else if x < 0 then table[0]
    else (table[x / 0x10_0000] * (0xF_FFFF - x % 0x10_0000) + table[x / 0x10_0000 + 1] * (x % 0x10_0000)) / 0x10_0000
  }

  /** Every result lies within its cell, down to one unit below. */
  lemma LookupBounds(table: seq<int>, x: int)
    requires IsTable(table) && 0 <= x && x / 0x10_0000 < |table| - 1
    ensures var y0, y1 := table[x / 0x10_0000], table[x / 0x10_0000 + 1];
            Min(y0, y1) - 1 <= Lookup(table, x) <= Max(y0, y1)
  {
    var y0, y1 := table[x / 0x10_0000], table[x / 0x10_0000 + 1];
    BlendBounds(y0, y1, x % 0x10_0000, Min(y0, y1), Max(y0, y1));
  }

  /** The result is the point on the straight line between the neighbours, rounded down, less
    at most 2^-5 for the weight that is missing. */
  lemma LookupFollowsLine(table: seq<int>, x: int)
    requires IsTable(table) && 0 <= x && x / 0x10_0000 < |table| - 1
    ensures var y0, y1, f := table[x / 0x10_0000], table[x / 0x10_0000 + 1], x % 0x10_0000;
            -0x10_8000 < 0x10_0000 * Lookup(table, x) - (0x10_0000 * y0 + (y1 - y0) * f) <= 0x8000
  {
  }

  // ---------------------------------------------------------------- bilinear

  /** The bounds check of the original. It compares the X index with the number of rows. */
  predicate Admitted(rows: nat, cols: nat, x: q31, y: q31) {
    0 <= Index(x) <= rows - 1 && 0 <= Index(y) <= cols - 1
  }

  /** All four entries the code reads exist in the memory of `size` entries behind the table
    pointer. */
  predicate NeighboursExist(size: nat, cols: nat, x: q31, y: q31) {
    0 <= Index(x) && 0 <= Index(y) && Index(x) + 1 + cols * (Index(y) + 1) < size
  }

  /** The bounds check alone ensures that exactly for tables this shape: the furthest read is
    for the last admitted row and column, and a 12.20 argument reaches index 2047 at most. */
  lemma BoundsCheckSufficesIff(size: nat, rows: nat, cols: nat)
    ensures (forall x: q31, y: q31 | Admitted(rows, cols, x, y) :: NeighboursExist(size, cols, x, y))
       <==> rows == 0 || cols == 0 || Min(rows, 0x800) + cols * Min(cols, 0x800) < size
  {
    var r, c := Min(rows, 0x800), Min(cols, 0x800);
    if rows > 0 && cols > 0 {
      if r + cols * c < size {
        forall x: q31, y: q31 | Admitted(rows, cols, x, y) ensures NeighboursExist(size, cols, x, y) {
          IndexBounds(x);
          IndexBounds(y);
          MulLe(Index(y) + 1, c, cols);
        }
      } else {
        var x: q31, y: q31 := (r - 1) * 0x10_0000, (c - 1) * 0x10_0000;
        IndexOfPoint(r - 1);
        IndexOfPoint(c - 1);
        assert Admitted(rows, cols, x, y) && !NeighboursExist(size, cols, x, y);
      }
    }
  }

  lemma IndexBounds(x: q31)
    ensures -0x800 <= Index(x) <= 0x7FF
  {
  }

  lemma IndexOfPoint(i: int)
    requires 0 <= i <= 0x7FF
    ensures Index(i * 0x10_0000) == i
  {
  }

  /** In a table of two rows and two columns the check admits the last entry, three of whose
    neighbours are outside. */
  lemma LastEntryHasNoNeighbours()
    ensures Admitted(2, 2, 0x10_0000, 0x10_0000) && !NeighboursExist(4, 2, 0x10_0000, 0x10_0000)
  {
    IndexOfPoint(1);
  }

  lemma NeighbourIndices(size: nat, cols: nat, x: q31, y: q31)
    requires NeighboursExist(size, cols, x, y)
    ensures 0 <= Index(x) + cols * Index(y)
    ensures Index(x) + cols * Index(y) + 1 < size
    ensures Index(x) + cols * (Index(y) + 1) + 1 < size
  {
    MulLe(0, Index(y), cols);
    Distribute(Index(y), 1, cols);
  }

  function BilinearQ15(data: seq<q15>, rows: nat, cols: nat, x: q31, y: q31): q15
    requires rows < 0x1_0000 && cols < 0x1_0000
    requires Admitted(rows, cols, x, y) ==> NeighboursExist(|data|, cols, x, y)
  {
    if !Admitted(rows, cols, x, y) then 0
    else
      NeighbourIndices(|data|, cols, x, y);
      var at := Index(x) + cols * Index(y);
      var below := Index(x) + cols * (Index(y) + 1);
      MixQ15(data[at], data[at + 1], data[below], data[below + 1], Fract(x), Fract(y))
  }

  function MixQ15(x1: q15, x2: q15, y1: q15, y2: q15, xf: int, yf: int): q15 {
    var out1 := ToI32(ToI64(x1 * (MAX_FRACT - xf)) / 0x10);
    var acc1 := ToI64(out1 * (MAX_FRACT - yf));
    var out2 := ToI32(ToI64(x2 * (MAX_FRACT - yf)) / 0x10);
    var acc2 := ToI64(acc1 + ToI64(out2 * xf));
    var out3 := ToI32(ToI64(y1 * (MAX_FRACT - xf)) / 0x10);
    var acc3 := ToI64(acc2 + ToI64(out3 * yf));
    var out4 := ToI32(ToI64(y2 * xf) / 0x10);
    var acc4 := ToI64(acc3 + ToI64(out4 * yf));
    ToI16(acc4 / 0x10_0000_0000)
  }

  function BilinearQ7(data: seq<q7>, rows: nat, cols: nat, x: q31, y: q31): q7
    requires rows < 0x1_0000 && cols < 0x1_0000
    requires Admitted(rows, cols, x, y) ==> NeighboursExist(|data|, cols, x, y)
  {
    if !Admitted(rows, cols, x, y) then 0
    else
      NeighbourIndices(|data|, cols, x, y);
      var at := Index(x) + cols * Index(y);
      var below := Index(x) + cols * (Index(y) + 1);
      MixQ7(data[at], data[at + 1], data[below], data[below + 1], Fract(x), Fract(y))
  }

  function MixQ7(x1: q7, x2: q7, y1: q7, y2: q7, xf: int, yf: int): q7 {
    var acc1 := ToI64(ToI32(x1 * (MAX_FRACT - xf)) * (MAX_FRACT - yf));
    var acc2 := ToI64(acc1 + ToI64(ToI32(x2 * (MAX_FRACT - yf)) * xf));
    var acc3 := ToI64(acc2 + ToI64(ToI32(y1 * (MAX_FRACT - xf)) * yf));
    var acc4 := ToI64(acc3 + ToI64(ToI32(y2 * yf) * xf));
    ToI8(acc4 / 0x100_0000_0000)
  }

  /** The exact bilinear mean, scaled by (2^20 - 1)^2: first along each row, then between the
    two rows. */
  function WeightedSum(x1: int, x2: int, y1: int, y2: int, xf: int, yf: int): int {
    (x1 * (MAX_FRACT - xf) + x2 * xf) * (MAX_FRACT - yf) + (y1 * (MAX_FRACT - xf) + y2 * xf) * yf
  }

  /** The four weights add up to (2^20 - 1)^2. */
  lemma WeightedSumBounds(x1: int, x2: int, y1: int, y2: int, xf: int, yf: int, lo: int, hi: int)
    requires 0 <= xf <= MAX_FRACT && 0 <= yf <= MAX_FRACT
    requires lo <= x1 <= hi && lo <= x2 <= hi && lo <= y1 <= hi && lo <= y2 <= hi
    ensures lo * (MAX_FRACT * MAX_FRACT) <= WeightedSum(x1, x2, y1, y2, xf, yf) <= hi * (MAX_FRACT * MAX_FRACT)
  {
    var a, c := MAX_FRACT - xf, MAX_FRACT - yf;
    Mixed(x1, x2, a, xf, lo, hi);
    Mixed(y1, y2, a, xf, lo, hi);
    var upper, lower := x1 * a + x2 * xf, y1 * a + y2 * xf;
    Mixed(upper, lower, c, yf, lo * MAX_FRACT, hi * MAX_FRACT);
  }

  /** Which neighbour lies where: at the corners of the cell each has all the weight. */
  lemma WeightedSumCorners(x1: int, x2: int, y1: int, y2: int)
    ensures WeightedSum(x1, x2, y1, y2, 0, 0) == x1 * (MAX_FRACT * MAX_FRACT)
    ensures WeightedSum(x1, x2, y1, y2, MAX_FRACT, 0) == x2 * (MAX_FRACT * MAX_FRACT)
    ensures WeightedSum(x1, x2, y1, y2, 0, MAX_FRACT) == y1 * (MAX_FRACT * MAX_FRACT)
    ensures WeightedSum(x1, x2, y1, y2, MAX_FRACT, MAX_FRACT) == y2 * (MAX_FRACT * MAX_FRACT)
  {
  }

  lemma Swap(a: int, b: int, c: int)
    ensures (a * b) * c == (a * c) * b
  {
  }

  /** One of the four terms of the Q15 accumulator: 32 bits hold the shifted product, and the
    shift costs at most 15/16 of a unit per weight. */
  lemma TermQ15(v: q15, a: int, w: int)
    requires 0 <= a <= MAX_FRACT && 0 <= w <= MAX_FRACT
    ensures var out := ToI32(ToI64(v * a) / 0x10);
            && ToI64(out * w) == out * w
            && -0x8_0000_0000_0000 <= out * w <= 0x8_0000_0000_0000
            && (v * a) * w - 0xF * w <= 0x10 * (out * w) <= (v * a) * w
    ensures TermFitsQ15(v, a, w) && ExactTermQ15(v, a, w) == ToI32(ToI64(v * a) / 0x10) * w
  {
    ProductBound(v, 0x8000, a, MAX_FRACT);
    var out := (v * a) / 0x10;
    ProductBound(out, 0x8000_0000, w, MAX_FRACT);
    MulLe(0x10 * out, v * a, w);
    MulLe(v * a - 0xF, 0x10 * out, w);
    Distribute(v * a, 0xF, w);
    Associate(0x10, out, w);
  }

  /** A term of the accumulators before it is added, and whether every cast on the way to it
    keeps the value. */
  function ExactTermQ15(v: int, a: int, w: int): int {
    ((v * a) / 0x10) * w
  }

  predicate TermFitsQ15(v: int, a: int, w: int) {
    FitsQ63(v * a) && FitsQ31((v * a) / 0x10) && FitsQ63(ExactTermQ15(v, a, w))
  }

  predicate TermFitsQ7(v: int, a: int, w: int) {
    FitsQ31(v * a) && FitsQ63((v * a) * w)
  }

  /** The running sums of four terms fit, too. */
  predicate SumsFit(t1: int, t2: int, t3: int, t4: int) {
    FitsQ63(t1) && FitsQ63(t1 + t2) && FitsQ63(t1 + t2 + t3) && FitsQ63(t1 + t2 + t3 + t4)
  }

  /** Every value of the Q15 accumulation is the one it would be without machine arithmetic. */
  predicate MixFitsQ15(x1: int, x2: int, y1: int, y2: int, xf: int, yf: int) {
    var a, c := MAX_FRACT - xf, MAX_FRACT - yf;
    && TermFitsQ15(x1, a, c) && TermFitsQ15(x2, c, xf) && TermFitsQ15(y1, a, yf) && TermFitsQ15(y2, xf, yf)
    && SumsFit(ExactTermQ15(x1, a, c), ExactTermQ15(x2, c, xf), ExactTermQ15(y1, a, yf), ExactTermQ15(y2, xf, yf))
  }

  predicate MixFitsQ7(x1: int, x2: int, y1: int, y2: int, xf: int, yf: int) {
    var a, c := MAX_FRACT - xf, MAX_FRACT - yf;
    && TermFitsQ7(x1, a, c) && TermFitsQ7(x2, c, xf) && TermFitsQ7(y1, a, yf) && TermFitsQ7(y2, yf, xf)
    && SumsFit((x1 * a) * c, (x2 * c) * xf, (y1 * a) * yf, (y2 * yf) * xf)
  }

  /** No intermediate of the Q15 accumulation overflows, and the result stays within the four
    neighbours, down to one unit below. */
  lemma MixQ15Bounds(x1: q15, x2: q15, y1: q15, y2: q15, xf: int, yf: int, lo: int, hi: int)
    requires 0 <= xf <= MAX_FRACT && 0 <= yf <= MAX_FRACT
    requires -0x8000 <= lo <= x1 <= hi < 0x8000 && lo <= x2 <= hi && lo <= y1 <= hi && lo <= y2 <= hi
    ensures 0 <= WeightedSum(x1, x2, y1, y2, xf, yf) / 0x100_0000_0000 - MixQ15(x1, x2, y1, y2, xf, yf) <= 1
    ensures lo - 1 <= MixQ15(x1, x2, y1, y2, xf, yf) <= hi
    ensures MixFitsQ15(x1, x2, y1, y2, xf, yf)
    ensures MixQ15(x1, x2, y1, y2, xf, yf)
         == (ExactTermQ15(x1, MAX_FRACT - xf, MAX_FRACT - yf) + ExactTermQ15(x2, MAX_FRACT - yf, xf)
             + ExactTermQ15(y1, MAX_FRACT - xf, yf) + ExactTermQ15(y2, xf, yf)) / 0x10_0000_0000
  {
    hide ToI32, WeightedSum;
    TermQ15(x1, MAX_FRACT - xf, MAX_FRACT - yf);
    TermQ15(x2, MAX_FRACT - yf, xf);
    TermQ15(y1, MAX_FRACT - xf, yf);
    TermQ15(y2, xf, yf);
    var acc := ToI32(ToI64(x1 * (MAX_FRACT - xf)) / 0x10) * (MAX_FRACT - yf)
               + ToI32(ToI64(x2 * (MAX_FRACT - yf)) / 0x10) * xf
               + ToI32(ToI64(y1 * (MAX_FRACT - xf)) / 0x10) * yf
               + ToI32(ToI64(y2 * xf) / 0x10) * yf;
    WeightedSumBounds(x1, x2, y1, y2, xf, yf, lo, hi);
    WeightedSumIs(x1, x2, y1, y2, xf, yf);
    ScaledDownQ15(acc, WeightedSum(x1, x2, y1, y2, xf, yf), lo, hi);
    assert MixQ15(x1, x2, y1, y2, xf, yf) == ToI16(acc / 0x10_0000_0000);
  }

  lemma WeightedSumIs(x1: int, x2: int, y1: int, y2: int, xf: int, yf: int)
    ensures WeightedSum(x1, x2, y1, y2, xf, yf)
         == (x1 * (MAX_FRACT - xf)) * (MAX_FRACT - yf) + (x2 * (MAX_FRACT - yf)) * xf
            + (y1 * (MAX_FRACT - xf)) * yf + (y2 * xf) * yf
  {
    Distribute(x1 * (MAX_FRACT - xf), x2 * xf, MAX_FRACT - yf);
    Distribute(y1 * (MAX_FRACT - xf), y2 * xf, yf);
    Swap(x2, xf, MAX_FRACT - yf);
  }

  lemma ScaledDownQ15(acc: int, sum: int, lo: int, hi: int)
    requires -0x8000 <= lo <= hi < 0x8000
    requires lo * (MAX_FRACT * MAX_FRACT) <= sum <= hi * (MAX_FRACT * MAX_FRACT)
    requires sum - 0x2D * MAX_FRACT <= 0x10 * acc <= sum
    ensures 0 <= sum / 0x100_0000_0000 - acc / 0x10_0000_0000 <= 1
    ensures lo - 1 <= acc / 0x10_0000_0000 <= hi
  {
  }

  lemma MixQ7Bounds(x1: q7, x2: q7, y1: q7, y2: q7, xf: int, yf: int, lo: int, hi: int)
    requires 0 <= xf <= MAX_FRACT && 0 <= yf <= MAX_FRACT
    requires -0x80 <= lo <= x1 <= hi < 0x80 && lo <= x2 <= hi && lo <= y1 <= hi && lo <= y2 <= hi
    ensures MixQ7(x1, x2, y1, y2, xf, yf) == WeightedSum(x1, x2, y1, y2, xf, yf) / 0x100_0000_0000
    ensures lo - 1 <= MixQ7(x1, x2, y1, y2, xf, yf) <= hi
    ensures MixFitsQ7(x1, x2, y1, y2, xf, yf)
  {
    TermQ7(x1, MAX_FRACT - xf, MAX_FRACT - yf);
    TermQ7(x2, MAX_FRACT - yf, xf);
    TermQ7(y1, MAX_FRACT - xf, yf);
    TermQ7(y2, yf, xf);
    Swap(y2, xf, yf);
    WeightedSumIs(x1, x2, y1, y2, xf, yf);
    hide WeightedSum;
    WeightedSumBounds(x1, x2, y1, y2, xf, yf, lo, hi);
    ScaledDownQ7(WeightedSum(x1, x2, y1, y2, xf, yf), lo, hi);
  }

  lemma TermQ7(v: q7, a: int, w: int)
    requires 0 <= a <= MAX_FRACT && 0 <= w <= MAX_FRACT
    ensures ToI32(v * a) == v * a
    ensures ToI64(ToI32(v * a) * w) == (v * a) * w
    ensures -0x8000_0000_0000 <= (v * a) * w <= 0x8000_0000_0000
  {
    ProductBound(v, 0x80, a, MAX_FRACT);
    ProductBound(v * a, 0x800_0000, w, MAX_FRACT);
  }

  lemma ScaledDownQ7(sum: int, lo: int, hi: int)
    requires -0x80 <= lo <= hi < 0x80
    requires lo * (MAX_FRACT * MAX_FRACT) <= sum <= hi * (MAX_FRACT * MAX_FRACT)
    ensures lo - 1 <= sum / 0x100_0000_0000 <= hi
  {
  }

  function Least(a: int, b: int, c: int, d: int): int { Min(Min(a, b), Min(c, d)) }

  function Greatest(a: int, b: int, c: int, d: int): int { Max(Max(a, b), Max(c, d)) }

  /** The bounds check in terms of the arguments: rows along X and columns along Y, up to and
    with the last cell. */
  lemma AdmittedIff(rows: nat, cols: nat, x: q31, y: q31)
    ensures Admitted(rows, cols, x, y) <==> 0 <= x < rows * 0x10_0000 && 0 <= y < cols * 0x10_0000
    ensures Index(x) == x / 0x10_0000 && Fract(x) == x % 0x10_0000
  {
    DivMod(x, 0x10_0000);
    DivModUnique(x - x % 0x10_0000, 0x10_0000, x / 0x10_0000, 0);
    DivMod(y, 0x10_0000);
    DivModUnique(y - y % 0x10_0000, 0x10_0000, y / 0x10_0000, 0);
  }

  /** If the point is inside the table, all four entries the code reads exist in memory. */
  predicate ReadsExist(size: nat, rows: nat, cols: nat, x: q31, y: q31) {
    0 <= x < rows * 0x10_0000 && 0 <= y < cols * 0x10_0000 ==>
      x / 0x10_0000 + 1 + cols * (y / 0x10_0000 + 1) < size
  }

  lemma ReadsExistIff(size: nat, rows: nat, cols: nat, x: q31, y: q31)
    ensures ReadsExist(size, rows, cols, x, y) <==> (Admitted(rows, cols, x, y) ==> NeighboursExist(size, cols, x, y))
  {
    AdmittedIff(rows, cols, x, y);
    AdmittedIff(cols, rows, y, x);
    hide Index, Fract;
  }

  /** For every point with 0 <= x < rows * 2^20 and 0 <= y < cols * 2^20 the result is the
    bilinear mean of the four neighbours to within one unit, and lies within them, down to one
    unit below; for every other point it is zero. */
  lemma BilinearQ15Bounds(data: seq<q15>, rows: nat, cols: nat, x: q31, y: q31)
    requires rows < 0x1_0000 && cols < 0x1_0000 && ReadsExist(|data|, rows, cols, x, y)
    ensures Admitted(rows, cols, x, y) ==> NeighboursExist(|data|, cols, x, y)
    ensures !(0 <= x < rows * 0x10_0000 && 0 <= y < cols * 0x10_0000) ==> BilinearQ15(data, rows, cols, x, y) == 0
    ensures 0 <= x < rows * 0x10_0000 && 0 <= y < cols * 0x10_0000 ==>
              (CellInside(|data|, cols, x / 0x10_0000, y / 0x10_0000);
               var at := x / 0x10_0000 + cols * (y / 0x10_0000);
               var x1, x2, y1, y2 := data[at], data[at + 1], data[at + cols], data[at + cols + 1];
               var xf, yf, z := x % 0x10_0000, y % 0x10_0000, BilinearQ15(data, rows, cols, x, y);
               && MixFitsQ15(x1, x2, y1, y2, xf, yf)
               && 0 <= WeightedSum(x1, x2, y1, y2, xf, yf) / 0x100_0000_0000 - z <= 1
               && Least(x1, x2, y1, y2) - 1 <= z <= Greatest(x1, x2, y1, y2))
  {
    ReadsExistIff(|data|, rows, cols, x, y);
    AdmittedIff(rows, cols, x, y);
    AdmittedIff(cols, rows, y, x);
    if Admitted(rows, cols, x, y) {
      hide MixQ15, MixFitsQ15, WeightedSum, Index, Fract;
      NeighbourIndices(|data|, cols, x, y);
      CellInside(|data|, cols, x / 0x10_0000, y / 0x10_0000);
      var at := x / 0x10_0000 + cols * (y / 0x10_0000);
      var x1, x2, y1, y2 := data[at], data[at + 1], data[at + cols], data[at + cols + 1];
      MixQ15Bounds(x1, x2, y1, y2, x % 0x10_0000, y % 0x10_0000, Least(x1, x2, y1, y2), Greatest(x1, x2, y1, y2));
    }
  }

  lemma CellInside(size: nat, cols: nat, i: nat, j: nat)
    requires i + 1 + cols * (j + 1) < size
    ensures 0 <= cols * j && cols * (j + 1) == cols * j + cols
  {
    MulLe(0, j, cols);
    Distribute(j, 1, cols);
  }

  /** The same for Q7, where the result is the rounded-down mean itself. */
  lemma BilinearQ7Bounds(data: seq<q7>, rows: nat, cols: nat, x: q31, y: q31)
    requires rows < 0x1_0000 && cols < 0x1_0000 && ReadsExist(|data|, rows, cols, x, y)
    ensures Admitted(rows, cols, x, y) ==> NeighboursExist(|data|, cols, x, y)
    ensures !(0 <= x < rows * 0x10_0000 && 0 <= y < cols * 0x10_0000) ==> BilinearQ7(data, rows, cols, x, y) == 0
    ensures 0 <= x < rows * 0x10_0000 && 0 <= y < cols * 0x10_0000 ==>
              (CellInside(|data|, cols, x / 0x10_0000, y / 0x10_0000);
               var at := x / 0x10_0000 + cols * (y / 0x10_0000);
               var x1, x2, y1, y2 := data[at], data[at + 1], data[at + cols], data[at + cols + 1];
               var xf, yf, z := x % 0x10_0000, y % 0x10_0000, BilinearQ7(data, rows, cols, x, y);
               && MixFitsQ7(x1, x2, y1, y2, xf, yf)
               && z == WeightedSum(x1, x2, y1, y2, xf, yf) / 0x100_0000_0000
               && Least(x1, x2, y1, y2) - 1 <= z <= Greatest(x1, x2, y1, y2))
  {
    ReadsExistIff(|data|, rows, cols, x, y);
    AdmittedIff(rows, cols, x, y);
    AdmittedIff(cols, rows, y, x);
    if Admitted(rows, cols, x, y) {
      hide MixQ7, MixFitsQ7, WeightedSum, Index, Fract;
      NeighbourIndices(|data|, cols, x, y);
      CellInside(|data|, cols, x / 0x10_0000, y / 0x10_0000);
      var at := x / 0x10_0000 + cols * (y / 0x10_0000);
      var x1, x2, y1, y2 := data[at], data[at + 1], data[at + cols], data[at + cols + 1];
      MixQ7Bounds(x1, x2, y1, y2, x % 0x10_0000, y % 0x10_0000, Least(x1, x2, y1, y2), Greatest(x1, x2, y1, y2));
    }
  }
}
