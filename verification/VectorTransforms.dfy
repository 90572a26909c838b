/** The Clarke and Park transforms of motor control in Q31, and their inverses. */
module VectorTransforms {
  import opened Arith
  import opened FixedPoint

  function QAdd(x: q31, y: q31): q31 {
    ClipQ63ToQ31(ToI64(x + y))
  }

  function QSub(x: q31, y: q31): q31 {
    ClipQ63ToQ31(ToI64(x - y))
  }

  lemma QAddSaturates(x: q31, y: q31)
    ensures QAdd(x, y) == ClampQ31(x + y)
    ensures QSub(x, y) == ClampQ31(x - y)
  {
    ClipIsSaturation(x + y, 0);
    ClipIsSaturation(x - y, 0);
  }

  function Abs(x: int): int {
    if x < 0 then -x else x
  }

  // ---------------------------------------------------------------- Clarke

  // 1/sqrt(3), 2/sqrt(3) and sqrt(3)/2, scaled: the second and third are exactly two and
  // three times the first, and three times its square is just below 2^60.
  const INV_SQRT3: int := 0x24F34E8B
  const TWO_INV_SQRT3: int := 0x49E69D16
  const HALF_SQRT3: int := 0x6ED9EBA1

  function Clarke(ia: q31, ib: q31): (q31, q31) {
    var product1 := ToI32(ToI64(ia * INV_SQRT3) / 0x4000_0000);
    var product2 := ToI32(ToI64(ib * TWO_INV_SQRT3) / 0x4000_0000);
    (ia, QAdd(product1, product2))
  }

  function InvClarke(ialpha: q31, ibeta: q31): (q31, q31) {
    var product1 := ToI32(ToI64(ialpha * 0x4000_0000) / 0x8000_0000);
    var product2 := ToI32(ToI64(ibeta * HALF_SQRT3) / 0x8000_0000);
    (ialpha, QSub(product2, product1))
  }

  /** The beta component before the 32-bit cast and the saturation. */
  function ExactBeta(ia: q31, ib: q31): int {
    (ia * INV_SQRT3) / 0x4000_0000 + (ib * TWO_INV_SQRT3) / 0x4000_0000
  }

  /** The saturating addition is documented to rule out overflow, but the second product is
    cast to 32 bits first: the result is the saturated sum exactly for these `ib`. */
  lemma ClarkeSaturatesIff(ia: q31, ib: q31)
    ensures Clarke(ia, ib).1 == ClampQ31(ExactBeta(ia, ib)) <==> -HALF_SQRT3 <= ib <= HALF_SQRT3
  {
    hide QAdd, ClampQ31;
    var p1, p2 := (ia * INV_SQRT3) / 0x4000_0000, (ib * TWO_INV_SQRT3) / 0x4000_0000;
    QAddSaturates(ToI32(p1), ToI32(p2));
    assert -1239850263 <= p1 <= 1239850262;
    assert -2479700525 <= p2 <= 2479700524;
    assert FitsQ31(p2) <==> -1859775393 <= ib <= 1859775393;
    WrapDiffers(p1, p2);
  }

  /** Outside it the second product is out by 2^32: this is the result for every input. */
  lemma ClarkeExact(ia: q31, ib: q31)
    ensures var lost := if ib > 0x6ED9_EBA1 then 0x1_0000_0000 else if ib < -0x6ED9_EBA1 then -0x1_0000_0000 else 0;
            Clarke(ia, ib)
            == (ia, ClampQ31((ia * 0x24F3_4E8B) / 0x4000_0000 + ((ib * 0x49E6_9D16) / 0x4000_0000 - lost)))
  {
    hide QAdd, ClampQ31;
    var p1, p2 := (ia * INV_SQRT3) / 0x4000_0000, (ib * TWO_INV_SQRT3) / 0x4000_0000;
    assert -1239850263 <= p1 <= 1239850262;
    assert -2479700525 <= p2 <= 2479700524;
    QAddSaturates(ToI32(p1), ToI32(p2));
    SecondProductLost(ib);
  }

  lemma SecondProductLost(ib: q31)
    ensures var p2 := (ib * TWO_INV_SQRT3) / 0x4000_0000;
            var lost := if ib > HALF_SQRT3 then 0x1_0000_0000 else if ib < -HALF_SQRT3 then -0x1_0000_0000 else 0;
            ToI32(p2) == p2 - lost
  {
  }

  /** The first Ib above that range turns the largest beta into the smallest. */
  lemma ClarkeWraps()
    ensures ExactBeta(0, HALF_SQRT3 + 1) == 0x8000_0000
    ensures Clarke(0, HALF_SQRT3 + 1).1 == -0x8000_0000
  {
    QAddSaturates(0, -0x8000_0000);
    hide QAdd;
  }

  lemma WrapDiffers(p1: int, p2: int)
    requires -1239850263 <= p1 <= 1239850262 && -2479700525 <= p2 <= 2479700524
    ensures ToI32(p1) == p1
    ensures FitsQ31(p2) <==> ClampQ31(p1 + ToI32(p2)) == ClampQ31(p1 + p2)
  {
  }

  /** Where nothing is lost, beta is (Ia + 2 Ib) / sqrt(3), rounded down by less than two
    units. */
  lemma ClarkeIsScaledSum(ia: q31, ib: q31)
    requires FitsQ31((ib * TWO_INV_SQRT3) / 0x4000_0000) && FitsQ31(ExactBeta(ia, ib))
    ensures 0 <= (ia + 2 * ib) * INV_SQRT3 - Clarke(ia, ib).1 * 0x4000_0000 < 0x8000_0000
  {
  }

  /** The inverse transform keeps its promise: for every input the second current is the
    saturated difference of the two products, neither of which overflows. */
  lemma InvClarkeSaturates(ialpha: q31, ibeta: q31)
    ensures InvClarke(ialpha, ibeta)
         == (ialpha, ClampQ31((ibeta * 0x6ED9_EBA1) / 0x8000_0000 - ialpha / 2))
    ensures FitsQ31((ibeta * 0x6ED9_EBA1) / 0x8000_0000)
  {
    hide QSub, ClampQ31;
    InvClarkeProducts(ialpha, ibeta);
    QAddSaturates((ibeta * HALF_SQRT3) / 0x8000_0000, ialpha / 2);
  }

  /** Where the difference fits, it is (sqrt(3) Ibeta - Ialpha) / 2 in the scale of the
    constants, to within one unit on either side. */
  lemma InvClarkeIsScaledDifference(ialpha: q31, ibeta: q31)
    requires FitsQ31((ibeta * 0x6ED9_EBA1) / 0x8000_0000 - ialpha / 2)
    ensures -0x4000_0000 <= ibeta * 0x6ED9_EBA1 - ialpha * 0x4000_0000 - InvClarke(ialpha, ibeta).1 * 0x8000_0000
         <= 0x7FFF_FFFF
  {
    hide InvClarke;
    InvClarkeSaturates(ialpha, ibeta);
  }

  /** Whenever neither the cast nor the addition loses anything, the inverse transform gives
    back Ia exactly and Ib to within three units below and one above. */
  lemma ClarkeRoundTrip(ia: q31, ib: q31)
    requires FitsQ31((ib * TWO_INV_SQRT3) / 0x4000_0000) && FitsQ31(ExactBeta(ia, ib))
    ensures var (ialpha, ibeta) := Clarke(ia, ib);
            var (ia', ib') := InvClarke(ialpha, ibeta);
            ia' == ia && -3 <= ib' - ib <= 1
  {
    hide QAdd, QSub;
    var beta := ExactBeta(ia, ib);
    QAddSaturates((ia * INV_SQRT3) / 0x4000_0000, (ib * TWO_INV_SQRT3) / 0x4000_0000);
    assert Clarke(ia, ib) == (ia, beta);
    var half, back := ia / 2, (beta * HALF_SQRT3) / 0x8000_0000;
    InvClarkeProducts(ia, beta);
    QAddSaturates(back, half);
    RoundTripError(ia, ib);
  }

  lemma InvClarkeProducts(ia: q31, beta: q31)
    ensures ToI32(ToI64(ia * 0x4000_0000) / 0x8000_0000) == ia / 2
    ensures FitsQ31((beta * HALF_SQRT3) / 0x8000_0000)
    ensures ToI32(ToI64(beta * HALF_SQRT3) / 0x8000_0000) == (beta * HALF_SQRT3) / 0x8000_0000
  {
  }

  lemma RoundTripError(ia: q31, ib: q31)
    requires FitsQ31(ExactBeta(ia, ib))
    ensures -3 <= (ExactBeta(ia, ib) * HALF_SQRT3) / 0x8000_0000 - ia / 2 - ib <= 1
  {
    var beta := ExactBeta(ia, ib);
    // beta == (ia + 2 ib) k / 2^30 - rounding, and 3 k^2 == 2^60 - 470745493
    assert 0 <= (ia + 2 * ib) * INV_SQRT3 - beta * 0x4000_0000 < 0x8000_0000;
    assert -0xE000_0000 < ia + 2 * ib < 0xE000_0000;
  }

  /** Half of full scale is always safe. */
  lemma ClarkeRoundTripHalfScale(ia: q31, ib: q31)
    requires -0x4000_0000 <= ia <= 0x4000_0000 && -0x4000_0000 <= ib <= 0x4000_0000
    ensures var (ialpha, ibeta) := Clarke(ia, ib);
            var (ia', ib') := InvClarke(ialpha, ibeta);
            ia' == ia && -3 <= ib' - ib <= 1
  {
    ClarkeRoundTrip(ia, ib);
  }

  // ---------------------------------------------------------------- Park

  function Scaled(x: q31, y: q31): q31 {
    ToI32(ToI64(x * y) / 0x8000_0000)
  }

  function Park(ialpha: q31, ibeta: q31, sinVal: q31, cosVal: q31): (q31, q31) {
    var product1 := Scaled(ialpha, cosVal);
    var product2 := Scaled(ibeta, sinVal);
    var product3 := Scaled(ialpha, sinVal);
    var product4 := Scaled(ibeta, cosVal);
    (QAdd(product1, product2), QSub(product4, product3))
  }

  function InvPark(id: q31, iq: q31, sinVal: q31, cosVal: q31): (q31, q31) {
    var product1 := Scaled(id, cosVal);
    var product2 := Scaled(iq, sinVal);
    var product3 := Scaled(id, sinVal);
    var product4 := Scaled(iq, cosVal);
    (QSub(product1, product2), QAdd(product4, product3))
  }

  /** The one product of two Q31 values that does not fit Q31 is that of -1 and -1. */
  predicate NotBothLeast(x: q31, y: q31) {
    !(x == -0x8000_0000 && y == -0x8000_0000)
  }

  /** The additions saturate, but a product is cast to 32 bits before: it is the floor of the
    exact one unless both factors are least. */
  lemma ScaledExactIff(x: q31, y: q31)
    ensures Scaled(x, y) == (x * y) / 0x8000_0000 <==> NotBothLeast(x, y)
  {
    if NotBothLeast(x, y) { ScaledIsFloor(x, y); }
  }

  lemma ScaledIsFloor(x: q31, y: q31)
    requires NotBothLeast(x, y)
    ensures Scaled(x, y) == (x * y) / 0x8000_0000
    ensures 0 <= x * y - 0x8000_0000 * Scaled(x, y) <= 0x7FFF_FFFF
  {
    ProductBelowOne(x, y);
    DivMonotone(-0x4000_0000_0000_0000, x * y, 0x8000_0000);
    DivMonotone(x * y, 0x3FFF_FFFF_8000_0000, 0x8000_0000);
    DivMod(x * y, 0x8000_0000);
  }

  lemma ProductBelowOne(x: q31, y: q31)
    requires NotBothLeast(x, y)
    ensures -0x4000_0000_0000_0000 <= x * y <= 0x3FFF_FFFF_8000_0000
  {
    ProductBound(x, 0x8000_0000, y, 0x8000_0000);
    if x > -0x8000_0000 {
      ProductBound(x, 0x7FFF_FFFF, y, 0x8000_0000);
    } else {
      ProductBound(y, 0x7FFF_FFFF, x, 0x8000_0000);
    }
  }

  lemma ScaledShrinks(x: q31, y: q31)
    requires x != -0x8000_0000
    ensures -Abs(x) <= Scaled(x, y) <= Abs(x)
  {
    var m := Abs(x);
    ScaledIsFloor(x, y);
    ProductBound(x, m, y, 0x8000_0000);
    DivMonotone(-(m * 0x8000_0000), x * y, 0x8000_0000);
    DivMonotone(x * y, m * 0x8000_0000, 0x8000_0000);
    DivModUnique(m * 0x8000_0000, 0x8000_0000, m, 0);
    DivModUnique(-(m * 0x8000_0000), 0x8000_0000, -m, 0);
  }

  /** How far 2^31 times a sum or difference of two truncated products can be from the exact
    one. */
  lemma TruncatedSums(x: q31, y: q31, u: q31, v: q31)
    requires NotBothLeast(x, y) && NotBothLeast(u, v)
    ensures 0 <= x * y + u * v - 0x8000_0000 * (Scaled(x, y) + Scaled(u, v)) <= 0xFFFF_FFFE
    ensures -0x7FFF_FFFF <= x * y - u * v - 0x8000_0000 * (Scaled(x, y) - Scaled(u, v)) <= 0x7FFF_FFFF
  {
    hide Scaled;
    ScaledIsFloor(x, y);
    ScaledIsFloor(u, v);
  }

  /** No product of the transform of (a, b) wraps. */
  predicate ProductsFit(a: q31, b: q31, sinVal: q31, cosVal: q31) {
    && NotBothLeast(a, sinVal) && NotBothLeast(a, cosVal)
    && NotBothLeast(b, sinVal) && NotBothLeast(b, cosVal)
  }

  /** No product wraps and no sum saturates, in the forward and in the inverse transform. */
  predicate ParkFits(ialpha: q31, ibeta: q31, sinVal: q31, cosVal: q31) {
    && ProductsFit(ialpha, ibeta, sinVal, cosVal)
    && FitsQ31(Scaled(ialpha, cosVal) + Scaled(ibeta, sinVal))
    && FitsQ31(Scaled(ibeta, cosVal) - Scaled(ialpha, sinVal))
  }

  predicate InvParkFits(id: q31, iq: q31, sinVal: q31, cosVal: q31) {
    && ProductsFit(id, iq, sinVal, cosVal)
    && FitsQ31(Scaled(id, cosVal) - Scaled(iq, sinVal))
    && FitsQ31(Scaled(iq, cosVal) + Scaled(id, sinVal))
  }

  /** The saturating additions are documented to rule out overflow: the outputs of the forward
    transform are the saturated sums of the truncated products exactly when no product is that
    of two least values ... */
  lemma ParkSaturatesIff(ialpha: q31, ibeta: q31, sinVal: q31, cosVal: q31)
    ensures Park(ialpha, ibeta, sinVal, cosVal)
         == (ClampQ31((ialpha * cosVal) / 0x8000_0000 + (ibeta * sinVal) / 0x8000_0000),
             ClampQ31((ibeta * cosVal) / 0x8000_0000 - (ialpha * sinVal) / 0x8000_0000))
       <==> ProductsFit(ialpha, ibeta, sinVal, cosVal)
  {
    hide QAdd, QSub, Scaled, ClampQ31;
    QAddSaturates(Scaled(ialpha, cosVal), Scaled(ibeta, sinVal));
    QAddSaturates(Scaled(ibeta, cosVal), Scaled(ialpha, sinVal));
    SaturatedSumsIff(ialpha, cosVal, ibeta, sinVal);
    SaturatedSumsIff(ibeta, cosVal, ialpha, sinVal);
  }

  /** ... and so are those of the inverse. */
  lemma InvParkSaturatesIff(id: q31, iq: q31, sinVal: q31, cosVal: q31)
    ensures InvPark(id, iq, sinVal, cosVal)
         == (ClampQ31((id * cosVal) / 0x8000_0000 - (iq * sinVal) / 0x8000_0000),
             ClampQ31((iq * cosVal) / 0x8000_0000 + (id * sinVal) / 0x8000_0000))
       <==> ProductsFit(id, iq, sinVal, cosVal)
  {
    hide QAdd, QSub, Scaled, ClampQ31;
    QAddSaturates(Scaled(id, cosVal), Scaled(iq, sinVal));
    QAddSaturates(Scaled(iq, cosVal), Scaled(id, sinVal));
    SaturatedSumsIff(id, cosVal, iq, sinVal);
    SaturatedSumsIff(iq, cosVal, id, sinVal);
  }

  lemma SaturatedSumsIff(x: q31, y: q31, u: q31, v: q31)
    ensures ClampQ31(Scaled(x, y) + Scaled(u, v)) == ClampQ31((x * y) / 0x8000_0000 + (u * v) / 0x8000_0000)
       <==> NotBothLeast(x, y) && NotBothLeast(u, v)
    ensures ClampQ31(Scaled(x, y) - Scaled(u, v)) == ClampQ31((x * y) / 0x8000_0000 - (u * v) / 0x8000_0000)
       <==> (NotBothLeast(x, y) <==> NotBothLeast(u, v))
  {
    ScaledCases(x, y);
    ScaledCases(u, v);
    hide Scaled;
  }

  /** A product of two least values is taken for its negative. */
  lemma ScaledCases(x: q31, y: q31)
    ensures NotBothLeast(x, y) ==> Scaled(x, y) == (x * y) / 0x8000_0000
    ensures !NotBothLeast(x, y) ==> (x * y) / 0x8000_0000 == 0x8000_0000 && Scaled(x, y) == -0x8000_0000
  {
    if NotBothLeast(x, y) { ScaledIsFloor(x, y); }
  }

  /** Minus one times minus one gives minus one. */
  lemma ParkWraps()
    ensures Park(-0x8000_0000, 0, 0, -0x8000_0000).0 == -0x8000_0000
    ensures ClampQ31((-0x8000_0000 * -0x8000_0000) / 0x8000_0000 + 0) == 0x7FFF_FFFF
  {
    ScaledCases(-0x8000_0000, -0x8000_0000);
    ScaledIsFloor(0, 0);
    QAddSaturates(-0x8000_0000, 0);
    hide QAdd, Scaled;
  }

  /** What the two transforms compute for every input, with the products taken as they are
    truncated to 32 bits. */
  lemma ParkExact(ialpha: q31, ibeta: q31, sinVal: q31, cosVal: q31)
    ensures Park(ialpha, ibeta, sinVal, cosVal)
         == (ClampQ31(Truncated(ialpha, cosVal) + Truncated(ibeta, sinVal)),
             ClampQ31(Truncated(ibeta, cosVal) - Truncated(ialpha, sinVal)))
    ensures InvPark(ialpha, ibeta, sinVal, cosVal)
         == (ClampQ31(Truncated(ialpha, cosVal) - Truncated(ibeta, sinVal)),
             ClampQ31(Truncated(ialpha, sinVal) + Truncated(ibeta, cosVal)))
  {
    ScaledIsTruncated(ialpha, cosVal);
    ScaledIsTruncated(ibeta, sinVal);
    ScaledIsTruncated(ibeta, cosVal);
    ScaledIsTruncated(ialpha, sinVal);
    hide QAdd, QSub, Scaled, Truncated, ClampQ31;
    QAddSaturates(Scaled(ialpha, cosVal), Scaled(ibeta, sinVal));
    QAddSaturates(Scaled(ibeta, cosVal), Scaled(ialpha, sinVal));
    QAddSaturates(Scaled(ialpha, sinVal), Scaled(ibeta, cosVal));
  }

  /** The floor of the product, but for the one product that does not fit 32 bits. */
  function Truncated(x: int, y: int): int {
    if x == -0x8000_0000 && y == -0x8000_0000 then -0x8000_0000 else (x * y) / 0x8000_0000
  }

  lemma ScaledIsTruncated(x: q31, y: q31)
    ensures Scaled(x, y) == Truncated(x, y)
  {
    ScaledCases(x, y);
    hide Scaled;
  }

  lemma ParkUnsaturated(ialpha: q31, ibeta: q31, sinVal: q31, cosVal: q31)
    requires ParkFits(ialpha, ibeta, sinVal, cosVal)
    ensures Park(ialpha, ibeta, sinVal, cosVal)
         == (Scaled(ialpha, cosVal) + Scaled(ibeta, sinVal), Scaled(ibeta, cosVal) - Scaled(ialpha, sinVal))
  {
    hide QAdd, QSub, Scaled;
    QAddSaturates(Scaled(ialpha, cosVal), Scaled(ibeta, sinVal));
    QAddSaturates(Scaled(ibeta, cosVal), Scaled(ialpha, sinVal));
  }

  lemma InvParkUnsaturated(id: q31, iq: q31, sinVal: q31, cosVal: q31)
    requires InvParkFits(id, iq, sinVal, cosVal)
    ensures InvPark(id, iq, sinVal, cosVal)
         == (Scaled(id, cosVal) - Scaled(iq, sinVal), Scaled(iq, cosVal) + Scaled(id, sinVal))
  {
    hide QAdd, QSub, Scaled;
    QAddSaturates(Scaled(id, cosVal), Scaled(iq, sinVal));
    QAddSaturates(Scaled(iq, cosVal), Scaled(id, sinVal));
  }

  /** The forward transform rotates by minus the angle, to within two units. */
  lemma ParkRotates(ialpha: q31, ibeta: q31, sinVal: q31, cosVal: q31)
    requires ParkFits(ialpha, ibeta, sinVal, cosVal)
    ensures var (id, iq) := Park(ialpha, ibeta, sinVal, cosVal);
            && 0 <= ialpha * cosVal + ibeta * sinVal - 0x8000_0000 * id <= 0xFFFF_FFFE
            && -0x7FFF_FFFF <= ibeta * cosVal - ialpha * sinVal - 0x8000_0000 * iq <= 0x7FFF_FFFF
  {
    hide Park, Scaled;
    ParkUnsaturated(ialpha, ibeta, sinVal, cosVal);
    TruncatedSums(ialpha, cosVal, ibeta, sinVal);
    TruncatedSums(ibeta, cosVal, ialpha, sinVal);
  }

  /** The inverse transform rotates by the angle, to within two units. */
  lemma InvParkRotates(id: q31, iq: q31, sinVal: q31, cosVal: q31)
    requires InvParkFits(id, iq, sinVal, cosVal)
    ensures var (ialpha, ibeta) := InvPark(id, iq, sinVal, cosVal);
            && -0x7FFF_FFFF <= id * cosVal - iq * sinVal - 0x8000_0000 * ialpha <= 0x7FFF_FFFF
            && 0 <= iq * cosVal + id * sinVal - 0x8000_0000 * ibeta <= 0xFFFF_FFFE
  {
    hide InvPark, Scaled;
    InvParkUnsaturated(id, iq, sinVal, cosVal);
    TruncatedSums(id, cosVal, iq, sinVal);
    TruncatedSums(iq, cosVal, id, sinVal);
  }

  /** The algebra of the round trip: m is the scale, the r's are what the truncations drop. */
  lemma RotateBack(m: int, al: int, be: int, s: int, c: int, id: int, iq: int, al': int, be': int,
                   r1: int, r2: int, r3: int, r4: int)
    requires m * id == al * c + be * s - r1
    requires m * iq == be * c - al * s - r2
    requires m * al' == id * c - iq * s - r3
    requires m * be' == iq * c + id * s - r4
    ensures m * m * al' == al * (c * c + s * s) - r1 * c + r2 * s - m * r3
    ensures m * m * be' == be * (c * c + s * s) - r1 * s - r2 * c - m * r4
  {
    ScaleUp(m, al', id * c, iq * s, r3);
    ScaleUp(m, be', iq * c, -(id * s), r4);
    RotateBackAlpha(m, al, be, s, c, id, iq, r1, r2);
    RotateBackBeta(m, al, be, s, c, id, iq, r1, r2);
  }

  lemma RotateBackAlpha(m: int, al: int, be: int, s: int, c: int, id: int, iq: int, r1: int, r2: int)
    requires m * id == al * c + be * s - r1 && m * iq == be * c - al * s - r2
    ensures m * (id * c) - m * (iq * s) == al * (c * c + s * s) - r1 * c + r2 * s
  {
    Associate(m, id, c);
    Associate(m, iq, s);
    Expand(al, be, r1, c, s, c);
    Expand(be, -al, r2, c, s, s);
  }

  lemma RotateBackBeta(m: int, al: int, be: int, s: int, c: int, id: int, iq: int, r1: int, r2: int)
    requires m * id == al * c + be * s - r1 && m * iq == be * c - al * s - r2
    ensures m * (iq * c) - m * -(id * s) == be * (c * c + s * s) - r1 * s - r2 * c
  {
    Associate(m, id, s);
    Associate(m, iq, c);
    Expand(al, be, r1, c, s, s);
    Expand(be, -al, r2, c, s, c);
  }

  lemma ScaleUp(m: int, x: int, p: int, q: int, r: int)
    requires m * x == p - q - r
    ensures m * m * x == m * p - m * q - m * r
  {
    Associate(m, m, x);
  }

  lemma Expand(a: int, b: int, r: int, c: int, s: int, f: int)
    ensures (a * c + b * s - r) * f == a * (c * f) + b * (s * f) - r * f
  {
  }

  const SCALE_SQUARED: int := 0x4000_0000_0000_0000

  /** The recovered component is within five units of the original one scaled by
    cos^2 + sin^2. */
  predicate Recovered(component: q31, recovered: int, sinVal: q31, cosVal: q31) {
    -5 * SCALE_SQUARED
      < SCALE_SQUARED * recovered - component * (cosVal * cosVal + sinVal * sinVal)
      < 5 * SCALE_SQUARED
  }

  lemma RotationError(ialpha: q31, ibeta: q31, sinVal: q31, cosVal: q31)
    requires ParkFits(ialpha, ibeta, sinVal, cosVal)
    requires var (id, iq) := Park(ialpha, ibeta, sinVal, cosVal); ProductsFit(id, iq, sinVal, cosVal)
    ensures var (id, iq) := Park(ialpha, ibeta, sinVal, cosVal);
            && Recovered(ialpha, Scaled(id, cosVal) - Scaled(iq, sinVal), sinVal, cosVal)
            && Recovered(ibeta, Scaled(iq, cosVal) + Scaled(id, sinVal), sinVal, cosVal)
  {
    hide Park, Scaled;
    ParkUnsaturated(ialpha, ibeta, sinVal, cosVal);
    var (id, iq) := Park(ialpha, ibeta, sinVal, cosVal);
    var m := 0x8000_0000;
    var al', be' := Scaled(id, cosVal) - Scaled(iq, sinVal), Scaled(iq, cosVal) + Scaled(id, sinVal);
    TruncatedSums(ialpha, cosVal, ibeta, sinVal);
    TruncatedSums(ibeta, cosVal, ialpha, sinVal);
    TruncatedSums(id, cosVal, iq, sinVal);
    TruncatedSums(iq, cosVal, id, sinVal);
    var r1 := ialpha * cosVal + ibeta * sinVal - m * id;
    var r2 := ibeta * cosVal - ialpha * sinVal - m * iq;
    var r3 := id * cosVal - iq * sinVal - m * al';
    var r4 := iq * cosVal + id * sinVal - m * be';
    RotateBack(m, ialpha, ibeta, sinVal, cosVal, id, iq, al', be', r1, r2, r3, r4);
    ProductBound(r1, 0xFFFF_FFFE, cosVal, m);
    ProductBound(r1, 0xFFFF_FFFE, sinVal, m);
    ProductBound(r2, 0x7FFF_FFFF, cosVal, m);
    ProductBound(r2, 0x7FFF_FFFF, sinVal, m);
  }

  /** Park and back: when no addition saturates, both components are recovered. */
  lemma ParkRoundTrip(ialpha: q31, ibeta: q31, sinVal: q31, cosVal: q31)
    requires ParkFits(ialpha, ibeta, sinVal, cosVal)
    requires var (id, iq) := Park(ialpha, ibeta, sinVal, cosVal); InvParkFits(id, iq, sinVal, cosVal)
    ensures var (id, iq) := Park(ialpha, ibeta, sinVal, cosVal);
            var (ialpha', ibeta') := InvPark(id, iq, sinVal, cosVal);
            Recovered(ialpha, ialpha', sinVal, cosVal) && Recovered(ibeta, ibeta', sinVal, cosVal)
  {
    hide Park, InvPark, Scaled, Recovered;
    var (id, iq) := Park(ialpha, ibeta, sinVal, cosVal);
    RotationError(ialpha, ibeta, sinVal, cosVal);
    InvParkUnsaturated(id, iq, sinVal, cosVal);
  }

  /** A bound a caller can check without knowing the angle, or that sine and cosine belong
    together. */
  lemma ParkRoundTripSmall(ialpha: q31, ibeta: q31, sinVal: q31, cosVal: q31)
    requires Abs(ialpha) + Abs(ibeta) < 0x4000_0000
    ensures var (id, iq) := Park(ialpha, ibeta, sinVal, cosVal);
            var (ialpha', ibeta') := InvPark(id, iq, sinVal, cosVal);
            Recovered(ialpha, ialpha', sinVal, cosVal) && Recovered(ibeta, ibeta', sinVal, cosVal)
  {
    hide Park, InvPark, Scaled, Recovered;
    ScaledShrinks(ialpha, cosVal);
    ScaledShrinks(ibeta, sinVal);
    ScaledShrinks(ialpha, sinVal);
    ScaledShrinks(ibeta, cosVal);
    ParkUnsaturated(ialpha, ibeta, sinVal, cosVal);
    var (id, iq) := Park(ialpha, ibeta, sinVal, cosVal);
    ScaledShrinks(id, cosVal);
    ScaledShrinks(iq, sinVal);
    ScaledShrinks(id, sinVal);
    ScaledShrinks(iq, cosVal);
    ParkRoundTrip(ialpha, ibeta, sinVal, cosVal);
  }

  /** For a genuine sine and cosine every vector whose length is below full scale by eight
    units makes the round trip. */
  lemma ParkRoundTripOnCircle(ialpha: q31, ibeta: q31, sinVal: q31, cosVal: q31)
    requires cosVal * cosVal + sinVal * sinVal <= SCALE_SQUARED
    requires ialpha * ialpha + ibeta * ibeta <= 0x7FFF_FFF8 * 0x7FFF_FFF8
    ensures var (id, iq) := Park(ialpha, ibeta, sinVal, cosVal);
            var (ialpha', ibeta') := InvPark(id, iq, sinVal, cosVal);
            Recovered(ialpha, ialpha', sinVal, cosVal) && Recovered(ibeta, ibeta', sinVal, cosVal)
  {
    hide Park, InvPark, Scaled, Recovered, ParkFits;
    SquareBound(ialpha, ibeta, 0x7FFF_FFF8);
    SquareBound(ibeta, ialpha, 0x7FFF_FFF8);
    ParkFitsOnCircle(ialpha, ibeta, sinVal, cosVal);
    var (id, iq) := Park(ialpha, ibeta, sinVal, cosVal);
    RotationError(ialpha, ibeta, sinVal, cosVal);
    RecoveredFits(ialpha, Scaled(id, cosVal) - Scaled(iq, sinVal), sinVal, cosVal);
    RecoveredFits(ibeta, Scaled(iq, cosVal) + Scaled(id, sinVal), sinVal, cosVal);
    ParkRoundTrip(ialpha, ibeta, sinVal, cosVal);
  }

  lemma ParkFitsOnCircle(ialpha: q31, ibeta: q31, sinVal: q31, cosVal: q31)
    requires cosVal * cosVal + sinVal * sinVal <= SCALE_SQUARED
    requires ialpha * ialpha + ibeta * ibeta <= 0x7FFF_FFF8 * 0x7FFF_FFF8
    ensures ParkFits(ialpha, ibeta, sinVal, cosVal)
    ensures var (id, iq) := Park(ialpha, ibeta, sinVal, cosVal); id != -0x8000_0000 && iq != -0x8000_0000
  {
    hide Park, Scaled;
    var r := 0x7FFF_FFF8;
    SquareBound(ialpha, ibeta, r);
    SquareBound(ibeta, ialpha, r);
    CauchySchwarz(ialpha, ibeta, cosVal, sinVal, r);
    CauchySchwarzCross(ialpha, ibeta, cosVal, sinVal, r);
    TruncatedSums(ialpha, cosVal, ibeta, sinVal);
    TruncatedSums(ibeta, cosVal, ialpha, sinVal);
    ParkUnsaturated(ialpha, ibeta, sinVal, cosVal);
  }

  lemma CauchySchwarzCross(x: int, y: int, c: int, s: int, r: int)
    requires 0 <= r && x * x + y * y <= r * r && c * c + s * s <= SCALE_SQUARED
    ensures -(r * 0x8000_0000) <= y * c - x * s <= r * 0x8000_0000
  {
    var x' := -x;
    assert x' * x' == x * x && x' * s == -(x * s);
    CauchySchwarz(y, x', c, s, r);
  }

  lemma SquareBound(x: int, y: int, r: int)
    requires 0 <= r && x * x + y * y <= r * r
    ensures -r <= x <= r
  {
    Square(y);
    if x > r { MulLe(r + 1, x, x); MulLe(r + 1, x, r + 1); }
    if x < -r { MulLe(r + 1, -x, -x); MulLe(r + 1, -x, r + 1); }
  }

  /** |x c + y s| <= |(x, y)| * |(c, s)| */
  lemma CauchySchwarz(x: int, y: int, c: int, s: int, r: int)
    requires 0 <= r && x * x + y * y <= r * r && c * c + s * s <= SCALE_SQUARED
    ensures -(r * 0x8000_0000) <= x * c + y * s <= r * 0x8000_0000
  {
    var dot, cross := x * c + y * s, x * s - y * c;
    assert dot * dot + cross * cross == (x * x + y * y) * (c * c + s * s) by { Lagrange(x, y, c, s); }
    Square(c);
    Square(s);
    MulLe(x * x + y * y, r * r, c * c + s * s);
    Square(r);
    MulLe(c * c + s * s, SCALE_SQUARED, r * r);
    assert (r * 0x8000_0000) * (r * 0x8000_0000) == (r * r) * SCALE_SQUARED;
    SquareBound(dot, cross, r * 0x8000_0000);
  }

  lemma Lagrange(x: int, y: int, c: int, s: int)
    ensures (x * c + y * s) * (x * c + y * s) + (x * s - y * c) * (x * s - y * c)
         == (x * x + y * y) * (c * c + s * s)
  {
  }

  lemma RecoveredFits(component: q31, recovered: int, sinVal: q31, cosVal: q31)
    requires Recovered(component, recovered, sinVal, cosVal)
    requires cosVal * cosVal + sinVal * sinVal <= SCALE_SQUARED
    requires -0x7FFF_FFF8 <= component <= 0x7FFF_FFF8
    ensures FitsQ31(recovered)
  {
    var norm := cosVal * cosVal + sinVal * sinVal;
    Square(cosVal);
    Square(sinVal);
    ProductBound(component, 0x7FFF_FFF8, norm, SCALE_SQUARED);
  }
}
