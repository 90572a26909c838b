/** The incremental PID controller `arm_pid_q15`, in its plain and its DSP build. */
module Pid {
  import opened Arith
  import opened FixedPoint
  import opened PackedMac

  datatype Gains = Gains(a0: q15, a1: q15, a2: q15)

  /** The two last samples and the last output. */
  datatype State = State(x1: q15, x2: q15, y: q15)

  const ZERO_STATE := State(0, 0, 0)

  // ---------------------------------------------------------------- one sample

  /** The increment A0 * x[n] + A1 * x[n-1] + A2 * x[n-2], without machine arithmetic. */
  function Increment(g: Gains, s: State, x: q15): int {
    g.a0 * x + g.a1 * s.x1 + g.a2 * s.x2
  }

  /** The accumulator of the plain build, cast by cast. */
  function PlainAcc(g: Gains, s: State, x: q15): q63 {
    var acc0: int := ToI32(g.a0 * x);
    var acc1: int := ToI64(acc0 + ToI32(g.a1 * s.x1));
    var acc2: int := ToI64(acc1 + ToI32(g.a2 * s.x2));
    ToI64(acc2 + ToI32(s.y * 0x8000))
  }

  /** The accumulator of the DSP build, where the intrinsics are instructions: A1 holds the
    pair (A2 : A1) and two samples are loaded as one word. */
  function DspAcc(g: Gains, s: State, x: q15): q63 {
    var acc0: int := ToI32(Smuad(ToU32(g.a0), ToU32(x)));
    var acc1: int := ToI64(SmlaldInstruction(ToU32(ReadQ15x2(g.a1, g.a2)), ToU32(ReadQ15x2(s.x1, s.x2)), ToU64(acc0)));
    ToI64(acc1 + ToI32(s.y * 0x8000))
  }

  function Output(acc: q63): q15 {
    ToI16(Ssat(ToI32(acc / 0x8000), 16))
  }

  function Advance(s: State, x: q15, out: q15): State {
    State(x, s.x1, out)
  }

  function PlainStep(g: Gains, s: State, x: q15): State {
    Advance(s, x, Output(PlainAcc(g, s, x)))
  }

  function DspStep(g: Gains, s: State, x: q15): State {
    Advance(s, x, Output(DspAcc(g, s, x)))
  }

  lemma OutputIsClamp(acc: q63)
    requires -0x2_0000_0000 <= acc <= 0x2_0000_0000
    ensures Output(acc) == ClampQ15(acc / 0x8000)
  {
    SsatIsClamp(ToI32(acc / 0x8000), 16);
    Pow2Values();
  }

  /** Every value of the plain step is the one it would be without machine arithmetic. */
  predicate PlainStepFits(g: Gains, s: State, x: q15) {
    && FitsQ31(g.a0 * x) && FitsQ31(g.a1 * s.x1) && FitsQ31(g.a2 * s.x2) && FitsQ31(s.y * 0x8000)
    && FitsQ63(g.a0 * x + g.a1 * s.x1) && FitsQ63(Increment(g, s, x))
    && FitsQ63(Increment(g, s, x) + s.y * 0x8000)
    && FitsQ31((Increment(g, s, x) + s.y * 0x8000) / 0x8000)
  }

  /** No cast of the accumulation loses anything, so the output is the saturated sum of the
    last output and the rounded-down increment. */
  lemma PlainStepExact(g: Gains, s: State, x: q15)
    ensures PlainStepFits(g, s, x)
    ensures PlainAcc(g, s, x) == Increment(g, s, x) + s.y * 0x8000
    ensures -0x1_0000_0000 <= PlainAcc(g, s, x) <= 0x1_0000_0000
    ensures PlainStep(g, s, x) == State(x, s.x1, ClampQ15(s.y + Increment(g, s, x) / 0x8000))
  {
    ProductQ15(g.a0, x);
    ProductQ15(g.a1, s.x1);
    ProductQ15(g.a2, s.x2);
    OutputIsClamp(PlainAcc(g, s, x));
  }

  /** The output of a step of either build as one formula. */
  lemma PlainStepIsSum(g: Gains, s: State, x: q15)
    ensures PlainStep(g, s, x).y == ClampQ15((g.a0 * x + g.a1 * s.x1 + g.a2 * s.x2 + s.y * 0x8000) / 0x8000)
  {
    PlainStepExact(g, s, x);
    hide ClampQ15, PlainStep;
    OneMore(Increment(g, s, x), s.y);
  }

  lemma DspStepIsSum(g: Gains, s: State, x: q15)
    ensures DspStep(g, s, x).y
         == ClampQ15((g.a0 * x + g.a1 * s.x1 + g.a2 * s.x2 + s.y * 0x8000
                      + if g.a0 < 0 && x < 0 then 1 else 0) / 0x8000)
  {
    PlainStepExact(g, s, x);
    DspAccExact(g, s, x);
    OutputIsClamp(DspAcc(g, s, x));
    hide ClampQ15, PlainAcc, DspAcc, Output;
  }

  /** Exactly how the DSP accumulator differs: `__SMUAD` also multiplies the sign halves of
    A0 and the sample. */
  lemma DspAccExact(g: Gains, s: State, x: q15)
    ensures DspAcc(g, s, x) == PlainAcc(g, s, x) + (if g.a0 < 0 && x < 0 then 1 else 0)
  {
    hide Smuad, SmlaldInstruction, ReadQ15x2, ToU32, ToU64;
    var signs := if g.a0 < 0 && x < 0 then 1 else 0;
    SmuadAddsSigns(g.a0, x);
    ProductQ15(g.a0, x);
    SmlaldSigned(g.a1, g.a2, s.x1, s.x2, g.a0 * x + signs);
    PlainStepExact(g, s, x);
  }

  lemma SmlaldSigned(a1: q15, a2: q15, x1: q15, x2: q15, sum: int)
    requires -0x8000_0000 <= sum <= 0x8000_0000
    ensures ToI64(SmlaldInstruction(ToU32(ReadQ15x2(a1, a2)), ToU32(ReadQ15x2(x1, x2)), ToU64(sum)))
         == sum + a1 * x1 + a2 * x2
    ensures -0x8000_0000 <= a1 * x1 + a2 * x2 <= 0x8000_0000
  {
    ProductQ15(a1, x1);
    ProductQ15(a2, x2);
    InstructionStep(a1, a2, x1, x2, ToU64(sum));
    SignedSum(sum, a1 * x1 + a2 * x2);
  }

  lemma SmuadAddsSigns(a: q15, x: q15)
    ensures ToI32(Smuad(ToU32(a), ToU32(x))) == a * x + (if a < 0 && x < 0 then 1 else 0)
  {
    HalvesOfSignExtended(a);
    HalvesOfSignExtended(x);
    ProductQ15(a, x);
    SmuadSum(a * x, if a < 0 && x < 0 then 1 else 0);
    var ha, hx := if a < 0 then -1 else 0, if x < 0 then -1 else 0;
    assert ha * hx == if a < 0 && x < 0 then 1 else 0;
  }

  lemma SmuadSum(p: int, signs: int)
    requires -0x4000_0000 <= p <= 0x4000_0000 && 0 <= signs <= 1
    ensures ToI32(ToU32(ToI32(ToI32(p) + ToI32(signs)))) == p + signs
  {
  }

  lemma SignedSum(sum: int, step: int)
    requires -0x8000_0000 <= sum <= 0x8000_0000 && -0x2_0000_0000 <= step <= 0x2_0000_0000
    ensures ToI64((ToU64(sum) + step) % 0x1_0000_0000_0000_0000) == sum + step
  {
  }

  /** Adding 1 to the accumulator changes the saturated output. */
  predicate CarryShows(acc: int) {
    acc % 0x8000 == 0x7FFF && -0x8000 <= acc / 0x8000 < 0x7FFF
  }

  lemma CarryShowsIff(acc: int)
    ensures CarryShows(acc) <==> ClampQ15(acc / 0x8000) != ClampQ15((acc + 1) / 0x8000)
    ensures 0 <= ClampQ15((acc + 1) / 0x8000) - ClampQ15(acc / 0x8000) <= 1
  {
  }

  /** From a common state the two builds give the same output exactly when the extra 1 of the
    sign halves does not carry into it. */
  lemma BuildsAgreeOnStepIff(g: Gains, s: State, x: q15)
    ensures DspStep(g, s, x) == PlainStep(g, s, x)
       <==> !(g.a0 < 0 && x < 0 && CarryShows(PlainAcc(g, s, x)))
  {
    PlainStepExact(g, s, x);
    DspAccExact(g, s, x);
    OutputIsClamp(DspAcc(g, s, x));
    OutputIsClamp(PlainAcc(g, s, x));
    CarryShowsIff(PlainAcc(g, s, x));
  }

  /** The outputs of one step from a common state differ by at most one unit. */
  lemma BuildsDifferByOne(g: Gains, s: State, x: q15)
    ensures 0 <= DspStep(g, s, x).y - PlainStep(g, s, x).y <= 1
  {
    PlainStepExact(g, s, x);
    DspAccExact(g, s, x);
    OutputIsClamp(DspAcc(g, s, x));
    OutputIsClamp(PlainAcc(g, s, x));
  }

  // ---------------------------------------------------------------- whole runs

  /** The state after feeding the samples in order. */
  function PlainRun(g: Gains, s: State, xs: seq<q15>): State {
    if xs == [] then s else PlainStep(g, PlainRun(g, s, xs[..|xs| - 1]), xs[|xs| - 1])
  }

  function DspRun(g: Gains, s: State, xs: seq<q15>): State {
    if xs == [] then s else DspStep(g, DspRun(g, s, xs[..|xs| - 1]), xs[|xs| - 1])
  }

  /** Gains for which the extra 1 of the sign halves can never carry into an output: A0 is not
    negative, or the accumulator is always even. */
  predicate SafeGains(g: Gains) {
    g.a0 >= 0 || (g.a0 % 2 == 0 && g.a1 % 2 == 0 && g.a2 % 2 == 0)
  }

  lemma SafeGainsAgreeOnStep(g: Gains, s: State, x: q15)
    requires SafeGains(g)
    ensures DspStep(g, s, x) == PlainStep(g, s, x)
  {
    hide DspStep, PlainStep, PlainAcc, CarryShows;
    PlainStepExact(g, s, x);
    BuildsAgreeOnStepIff(g, s, x);
    if g.a0 < 0 {
      EvenProduct(g.a0, x);
      EvenProduct(g.a1, s.x1);
      EvenProduct(g.a2, s.x2);
      EvenNeverCarries(g.a0 * x, g.a1 * s.x1, g.a2 * s.x2, s.y);
    }
  }

  lemma EvenNeverCarries(p0: int, p1: int, p2: int, y: int)
    requires p0 % 2 == 0 && p1 % 2 == 0 && p2 % 2 == 0
    ensures !CarryShows(p0 + p1 + p2 + y * 0x8000)
  {
  }

  lemma EvenProduct(a: int, x: int)
    requires a % 2 == 0
    ensures (a * x) % 2 == 0
  {
    DivMod(a, 2);
    Associate(2, a / 2, x);
    DivModUnique(a * x, 2, (a / 2) * x, 0);
  }

  lemma {:induction false} BuildsAgreeOnRuns(g: Gains, s: State, xs: seq<q15>)
    requires SafeGains(g)
    ensures DspRun(g, s, xs) == PlainRun(g, s, xs)
  {
    hide DspStep, PlainStep;
    if xs != [] {
      BuildsAgreeOnRuns(g, s, xs[..|xs| - 1]);
      SafeGainsAgreeOnStep(g, PlainRun(g, s, xs[..|xs| - 1]), xs[|xs| - 1]);
    }
  }

  /** The builds are indistinguishable over every run from the reset state exactly for the
    safe gains, which a caller can check once. (For those they are so from every state.) */
  lemma BuildsAgreeIff(g: Gains)
    ensures SafeGains(g) <==> forall xs: seq<q15> :: DspRun(g, ZERO_STATE, xs) == PlainRun(g, ZERO_STATE, xs)
  {
    if SafeGains(g) {
      forall xs: seq<q15> ensures DspRun(g, ZERO_STATE, xs) == PlainRun(g, ZERO_STATE, xs) {
        BuildsAgreeOnRuns(g, ZERO_STATE, xs);
      }
    } else {
      var xs := DisagreeingRun(g);
    }
  }

  /** At most three samples tell the builds apart: the last is negative, and the ones before
    bring the accumulator to -1 modulo 2^15, without any saturation. */
  lemma DisagreeingRun(g: Gains) returns (xs: seq<q15>)
    requires !SafeGains(g)
    ensures |xs| <= 3 && DspRun(g, ZERO_STATE, xs) != PlainRun(g, ZERO_STATE, xs)
  {
    var before, x := CarryingSamples(g);
    xs := before + [x];
    var s := PlainRun(g, ZERO_STATE, before);
    RunExtends(g, ZERO_STATE, before, x);
    BuildsAgreeOnStepIff(g, s, x);
    hide DspStep, PlainStep, PlainAcc;
    if DspRun(g, ZERO_STATE, before) != s {
      xs := before;
    }
  }

  lemma CarryingSamples(g: Gains) returns (before: seq<q15>, x: q15)
    requires !SafeGains(g)
    ensures |before| <= 2 && x < 0 && CarryShows(PlainAcc(g, PlainRun(g, ZERO_STATE, before), x))
  {
    hide PlainAcc, PlainStep;
    if g.a0 % 2 == 1 {
      x := CarryAtOnce(g);
      before := [];
    } else if g.a1 % 2 == 1 {
      var u := CarryAfterOne(g);
      before, x := [u], -1;
    } else {
      var u := CarryAfterTwo(g);
      before, x := [u, -u], -1;
    }
  }

  lemma CarryAtOnce(g: Gains) returns (x: q15)
    requires g.a0 < 0 && g.a0 % 2 == 1
    ensures x < 0 && CarryShows(PlainAcc(g, ZERO_STATE, x))
  {
    hide PlainAcc, CarryShows, Pow2;
    var u, m := SolveOdd(g.a0, -1, 15);
    assert u < 0x8000 && g.a0 * u + 1 == m * 0x8000 by { Pow2Values(); }
    x := u as int - 0x8000;
    OneCarries(g.a0, x, m - g.a0) by { Distribute(u, 0x8000, g.a0); }
    PlainStepExact(g, ZERO_STATE, x);
    IncrementIs(g, ZERO_STATE, x, g.a0 * x);
  }

  lemma OneCarries(a: q15, x: q15, m: int)
    requires a < 0 && a % 2 == 1 && x < 0 && a * x == m * 0x8000 - 1
    ensures CarryShows(a * x)
  {
    OddFactor(a, x, m);
    ProductBound(a, 0x7FFF, x, 0x7FFF);
    MulLe(0, -a, -x);
    ResidueMinusOne(a * x, m);
  }

  lemma CarryAfterOne(g: Gains) returns (u: q15)
    requires g.a0 < 0 && g.a0 % 2 == 0 && g.a1 % 2 == 1
    ensures CarryShows(PlainAcc(g, PlainRun(g, ZERO_STATE, [u]), -1))
  {
    hide PlainAcc, PlainRun, CarryShows, ClampQ15;
    var a0: int, a1: int := g.a0, g.a1;
    var m;
    u, m := SolveSmall(a1, a0 - 1);
    var p0, p1 := a0 * u, a1 * u;
    ProductBound(a0, 0x8000, u, 0x3FFF);
    ProductBound(a1, 0x7FFF, u, 0x3FFF);
    AccAfterOne(g, u, p0, p1);
    TwoCarry(p0, p1, a0, m);
  }

  lemma AccAfterOne(g: Gains, u: q15, p0: int, p1: int)
    requires p0 == g.a0 * u && p1 == g.a1 * u
    ensures PlainAcc(g, PlainRun(g, ZERO_STATE, [u]), -1) == p1 - g.a0 + ClampQ15(p0 / 0x8000) * 0x8000
  {
    hide PlainAcc, PlainRun, ClampQ15;
    StateAfterOne(g, u);
    var s := PlainRun(g, ZERO_STATE, [u]);
    PlainStepExact(g, s, -1);
    IncrementIs(g, s, -1, p1 - g.a0);
  }

  lemma CarryAfterTwo(g: Gains) returns (u: q15)
    requires g.a0 < 0 && g.a0 % 2 == 0 && g.a1 % 2 == 0 && g.a2 % 2 == 1
    ensures u != -0x8000 && CarryShows(PlainAcc(g, PlainRun(g, ZERO_STATE, [u, -u]), -1))
  {
    hide *;
    var a0: int, a1: int, a2: int := g.a0, g.a1, g.a2;
    var m;
    u, m := SolveSmall(a2 - a1, a0 - 1);
    var p0, p1, p2 := a0 * u, a1 * u, a2 * u;
    SolvedProducts(a0, a1, a2, u, m, p0, p1, p2);
    AccAfterTwo(g, u, p0, p1, p2);
    ThreeCarry(p0, p1, p2, a0, m);
  }

  lemma SolvedProducts(a0: int, a1: int, a2: int, u: int, m: int, p0: int, p1: int, p2: int)
    requires -0x8000 <= a0 < 0x8000 && -0x8000 <= a1 < 0x8000 && -0x8000 <= a2 < 0x8000
    requires -0x3FFF <= u <= 0x3FFF && (a2 - a1) * u - (a0 - 1) == m * 0x8000
    requires p0 == a0 * u && p1 == a1 * u && p2 == a2 * u
    ensures p2 - p1 - a0 == m * 0x8000 - 1
    ensures -(0x8000 * 0x3FFF) <= p0 <= 0x8000 * 0x3FFF
    ensures -(0x8000 * 0x3FFF) <= p1 <= 0x8000 * 0x3FFF
    ensures -(0x8000 * 0x3FFF) <= p2 <= 0x8000 * 0x3FFF
  {
    Distribute(a2, a1, u);
    ProductBound(a0, 0x8000, u, 0x3FFF);
    ProductBound(a1, 0x8000, u, 0x3FFF);
    ProductBound(a2, 0x8000, u, 0x3FFF);
  }

  lemma AccAfterTwo(g: Gains, u: q15, p0: int, p1: int, p2: int)
    requires u != -0x8000 && p0 == g.a0 * u && p1 == g.a1 * u && p2 == g.a2 * u
    ensures PlainAcc(g, PlainRun(g, ZERO_STATE, [u, -u]), -1)
         == p2 - p1 - g.a0 + ClampQ15(ClampQ15(p0 / 0x8000) + (p1 - p0) / 0x8000) * 0x8000
  {
    hide PlainAcc, PlainRun, ClampQ15;
    StateAfterTwo(g, u, p0, p1);
    var s := PlainRun(g, ZERO_STATE, [u, -u]);
    PlainStepExact(g, s, -1);
    Negated(g.a1, u);
    IncrementIs(g, s, -1, p2 - p1 - g.a0);
  }

  lemma Negated(a: int, u: int)
    ensures a * -u == -(a * u)
  {
  }

  lemma IncrementIs(g: Gains, s: State, x: q15, p: int)
    requires p == g.a0 * x + g.a1 * s.x1 + g.a2 * s.x2
    ensures Increment(g, s, x) == p
  {
  }

  lemma StateAfterOne(g: Gains, u: q15)
    ensures PlainRun(g, ZERO_STATE, [u]) == State(u, 0, ClampQ15((g.a0 * u) / 0x8000))
  {
    hide PlainAcc, ClampQ15;
    RunOfOne(g, ZERO_STATE, u);
    PlainStepExact(g, ZERO_STATE, u);
    IncrementIs(g, ZERO_STATE, u, g.a0 * u);
  }

  lemma StateAfterTwo(g: Gains, u: q15, p0: int, p1: int)
    requires u != -0x8000 && p0 == g.a0 * u && p1 == g.a1 * u
    ensures PlainRun(g, ZERO_STATE, [u, -u])
         == State(-u, u, ClampQ15(ClampQ15(p0 / 0x8000) + (p1 - p0) / 0x8000))
  {
    hide *;
    StateAfterOne(g, u);
    RunOfTwo(g, ZERO_STATE, u, -u);
    SecondIncrement(g.a0, g.a1, g.a2, u);
    StepIs(g, State(u, 0, ClampQ15(p0 / 0x8000)), -u, p1 - p0);
  }

  lemma RunOfTwo(g: Gains, s: State, x: q15, x': q15)
    ensures PlainRun(g, s, [x, x']) == PlainStep(g, PlainRun(g, s, [x]), x')
  {
    assert [x] + [x'] == [x, x'];
    RunExtends(g, s, [x], x');
  }

  lemma SecondIncrement(a0: int, a1: int, a2: int, u: int)
    ensures a1 * u - a0 * u == a0 * -u + a1 * u + a2 * 0
  {
  }

  lemma StepIs(g: Gains, s: State, x: q15, p: int)
    requires p == g.a0 * x + g.a1 * s.x1 + g.a2 * s.x2
    ensures PlainStep(g, s, x) == State(x, s.x1, ClampQ15(s.y + p / 0x8000))
  {
    hide PlainAcc, PlainStep, PlainStepFits, ClampQ15;
    PlainStepExact(g, s, x);
  }

  /** Two steps, with increments A0 u and A1 u - A0: they nearly cancel or add up, but stay in
    range. */
  lemma TwoCarry(p0: int, p1: int, a0: int, m: int)
    requires -0x8000 <= a0 < 0 && p1 - a0 == m * 0x8000 - 1
    requires -(0x8000 * 0x3FFF) <= p0 <= 0x8000 * 0x3FFF && -(0x7FFF * 0x3FFF) <= p1 <= 0x7FFF * 0x3FFF
    ensures CarryShows(p1 - a0 + ClampQ15(p0 / 0x8000) * 0x8000)
  {
    ResidueMinusOne(p1 - a0, m);
  }

  /** Three steps, with increments A0 u, A1 u - A0 u and A2 u - A1 u - A0: they nearly
    telescope. */
  lemma ThreeCarry(p0: int, p1: int, p2: int, a0: int, m: int)
    requires -0x8000 <= a0 < 0 && p2 - p1 - a0 == m * 0x8000 - 1
    requires -(0x8000 * 0x3FFF) <= p0 <= 0x8000 * 0x3FFF
    requires -(0x8000 * 0x3FFF) <= p1 <= 0x8000 * 0x3FFF
    requires -(0x8000 * 0x3FFF) <= p2 <= 0x8000 * 0x3FFF
    ensures CarryShows(p2 - p1 - a0 + ClampQ15(ClampQ15(p0 / 0x8000) + (p1 - p0) / 0x8000) * 0x8000)
  {
    ResidueMinusOne(p2 - p1 - a0, m);
  }

  lemma ResidueMinusOne(v: int, m: int)
    requires v == m * 0x8000 - 1
    ensures v % 0x8000 == 0x7FFF
  {
  }

  lemma OddFactor(a: int, x: int, m: int)
    requires a * x == m * 0x8000 - 1
    ensures x % 2 == 1
  {
    if x % 2 == 0 { EvenProduct(x, a); }
  }

  /** The solution of smallest magnitude for an odd residue: below 2^14, because it is odd. */
  lemma SolveSmall(a: int, c: int) returns (u: q15, m: int)
    requires a % 2 == 1 && c % 2 == 1
    ensures -0x3FFF <= u <= 0x3FFF && a * u - c == m * 0x8000
  {
    var v: int;
    v, m := SolveOdd(a, c, 15);
    Pow2Values();
    assert v != 0x4000 by {
      if v % 2 == 0 { EvenProduct(v, a); }
    }
    if v > 0x4000 {
      Distribute(v, 0x8000, a);
      v, m := v - 0x8000, m - a;
    }
    u := v;
  }

  /** An odd number can be multiplied into every residue class modulo a power of two. */
  lemma {:induction false} SolveOdd(a: int, c: int, k: nat) returns (u: nat, m: int)
    requires a % 2 == 1
    ensures u < Pow2(k) && a * u - c == m * Pow2(k)
  {
    if k == 0 {
      u, m := 0, -c;
    } else {
      var p := Pow2(k - 1);
      u, m := SolveOdd(a, c, k - 1);
      if m % 2 == 1 {
        Distribute(u, p, a);
        Distribute(m, a, p);
        u, m := u + p, m + a;
      }
      Halve(m, p);
      m := m / 2;
    }
  }

  lemma Halve(m: int, p: int)
    requires m % 2 == 0
    ensures (m / 2) * (2 * p) == m * p
  {
    Associate(m / 2, 2, p);
  }

  function Negatives(xs: seq<q15>): nat {
    if xs == [] then 0 else Negatives(xs[..|xs| - 1]) + if xs[|xs| - 1] < 0 then 1 else 0
  }

  /** How far the builds drift apart over a run: both remember the same samples, and the DSP
    output gains at most one unit for each negative sample, if A0 is negative. */
  lemma {:induction false} BuildsDrift(g: Gains, s: State, xs: seq<q15>)
    ensures var dsp, plain := DspRun(g, s, xs), PlainRun(g, s, xs);
            && dsp.x1 == plain.x1 && dsp.x2 == plain.x2
            && 0 <= dsp.y - plain.y <= if g.a0 < 0 then Negatives(xs) else 0
  {
    if xs != [] {
      hide DspStep, PlainStep;
      BuildsDrift(g, s, xs[..|xs| - 1]);
      StepsDrift(g, DspRun(g, s, xs[..|xs| - 1]), PlainRun(g, s, xs[..|xs| - 1]), xs[|xs| - 1]);
    }
  }

  lemma StepsDrift(g: Gains, dsp: State, plain: State, x: q15)
    requires dsp.x1 == plain.x1 && dsp.x2 == plain.x2 && plain.y <= dsp.y
    ensures var dsp', plain' := DspStep(g, dsp, x), PlainStep(g, plain, x);
            && dsp'.x1 == plain'.x1 && dsp'.x2 == plain'.x2
            && 0 <= dsp'.y - plain'.y <= dsp.y - plain.y + if g.a0 < 0 && x < 0 then 1 else 0
  {
    hide *;
    StepsRemember(g, dsp, x);
    StepsRemember(g, plain, x);
    PlainStepIsSum(g, plain, x);
    DspStepIsSum(g, dsp, x);
    ClampedDrift(g.a0 * x + g.a1 * dsp.x1 + g.a2 * dsp.x2, plain.y, dsp.y, if g.a0 < 0 && x < 0 then 1 else 0);
  }

  lemma StepsRemember(g: Gains, s: State, x: q15)
    ensures PlainStep(g, s, x).x1 == x && PlainStep(g, s, x).x2 == s.x1
    ensures DspStep(g, s, x).x1 == x && DspStep(g, s, x).x2 == s.x1
  {
  }

  lemma ClampedDrift(p: int, y: int, y': int, extra: int)
    requires y <= y' && 0 <= extra <= 1
    ensures var plain, dsp := ClampQ15((p + y * 0x8000) / 0x8000), ClampQ15((p + y' * 0x8000 + extra) / 0x8000);
            0 <= dsp - plain <= y' - y + extra
  {
    OneMore(p, y);
    OneMore(p, y');
  }

  lemma OneMore(p: int, y: int)
    ensures (p + y * 0x8000) / 0x8000 == y + p / 0x8000
    ensures y + p / 0x8000 <= (p + 1 + y * 0x8000) / 0x8000 <= y + p / 0x8000 + 1
  {
  }

  const CLIMBING := Gains(-1, 0, 0)

  function Repeated(n: nat): (xs: seq<q15>) {
    seq(n, _ => -0x7FFF)
  }

  /** The bound is reached: the DSP output climbs a unit a sample while the plain one stays. */
  lemma {:induction false} DriftReached(n: nat)
    requires n <= 0x7FFF
    ensures PlainRun(CLIMBING, ZERO_STATE, Repeated(n)).y == 0
    ensures DspRun(CLIMBING, ZERO_STATE, Repeated(n)).y == n
  {
    if n > 0 {
      hide *;
      DriftReached(n - 1);
      RepeatedExtends(n);
      RunExtends(CLIMBING, ZERO_STATE, Repeated(n - 1), -0x7FFF);
      ClimbStep(PlainRun(CLIMBING, ZERO_STATE, Repeated(n - 1)));
      ClimbStep(DspRun(CLIMBING, ZERO_STATE, Repeated(n - 1)));
    } else {
      assert Repeated(0) == [];
    }
  }

  lemma RepeatedExtends(n: nat)
    requires n > 0
    ensures Repeated(n) == Repeated(n - 1) + [-0x7FFF]
  {
  }

  lemma ClimbStep(s: State)
    requires 0 <= s.y < 0x7FFF
    ensures PlainStep(CLIMBING, s, -0x7FFF).y == s.y
    ensures DspStep(CLIMBING, s, -0x7FFF).y == s.y + 1
  {
    hide PlainAcc, DspAcc, PlainStep, Output, Increment;
    IncrementIs(CLIMBING, s, -0x7FFF, 0x7FFF);
    PlainStepExact(CLIMBING, s, -0x7FFF);
    DspAccExact(CLIMBING, s, -0x7FFF);
    OutputIsClamp(DspAcc(CLIMBING, s, -0x7FFF));
  }

  /** The shortest run from the reset state that tells the builds apart, for A0 = -1. */
  lemma BuildsDisagreeForNegativeA0()
    ensures DspRun(Gains(-1, 0, 0), ZERO_STATE, [-0x7FFF]) != PlainRun(Gains(-1, 0, 0), ZERO_STATE, [-0x7FFF])
  {
    hide PlainStep, DspStep, PlainAcc, DspAcc;
    var g := Gains(-1, 0, 0);
    RunOfOne(g, ZERO_STATE, -0x7FFF);
    PlainStepExact(g, ZERO_STATE, -0x7FFF);
    BuildsAgreeOnStepIff(g, ZERO_STATE, -0x7FFF);
  }

  lemma RunOfOne(g: Gains, s: State, x: q15)
    ensures PlainRun(g, s, [x]) == PlainStep(g, s, x)
    ensures DspRun(g, s, [x]) == DspStep(g, s, x)
  {
    assert [x][..0] == [];
  }

  lemma RunExtends(g: Gains, s: State, xs: seq<q15>, x: q15)
    ensures PlainRun(g, s, xs + [x]) == PlainStep(g, PlainRun(g, s, xs), x)
    ensures DspRun(g, s, xs + [x]) == DspStep(g, DspRun(g, s, xs), x)
  {
    assert (xs + [x])[..|xs + [x]| - 1] == xs;
  }

  function Sum(xs: seq<int>): int {
    if xs == [] then 0 else Sum(xs[..|xs| - 1]) + xs[|xs| - 1]
  }

  function Last(xs: seq<int>): int {
    if xs == [] then 0 else xs[|xs| - 1]
  }

  function LastButOne(xs: seq<int>): int {
    if |xs| < 2 then 0 else xs[|xs| - 2]
  }

  /** No output of the run has to be saturated. */
  predicate Unsaturated(g: Gains, xs: seq<q15>) {
    xs == [] ||
    (var s := PlainRun(g, ZERO_STATE, xs[..|xs| - 1]);
     && Unsaturated(g, xs[..|xs| - 1])
     && -0x8000 <= s.y + Increment(g, s, xs[|xs| - 1]) / 0x8000 < 0x8000)
  }

  /** The positional controller: proportional to the last sample, plus the integral, plus
    the last difference. */
  function Positional(kp: int, ki: int, kd: int, xs: seq<int>): int {
    kp * Last(xs) + ki * Sum(xs) + kd * (Last(xs) - LastButOne(xs))
  }

  lemma RunRemembersSamples(g: Gains, xs: seq<q15>)
    ensures PlainRun(g, ZERO_STATE, xs).x1 == Last(xs)
    ensures PlainRun(g, ZERO_STATE, xs).x2 == LastButOne(xs)
  {
  }

  /** The increments telescope: after n samples the output is the positional controller's,
    scaled by 2^-15, minus a rounding loss of less than one unit per sample. */
  lemma {:induction false} TracksPositional(kp: int, ki: int, kd: int, g: Gains, xs: seq<q15>)
    requires g.a0 == kp + ki + kd && g.a1 == -kp - 2 * kd && g.a2 == kd
    requires Unsaturated(g, xs)
    ensures var loss := Positional(kp, ki, kd, xs) - 0x8000 * PlainRun(g, ZERO_STATE, xs).y;
            0 <= loss <= 0x7FFF * |xs|
  {
    if xs != [] {
      var before, x := xs[..|xs| - 1], xs[|xs| - 1];
      var s := PlainRun(g, ZERO_STATE, before);
      TracksPositional(kp, ki, kd, g, before);
      RunRemembersSamples(g, before);
      PlainStepExact(g, s, x);
      PositionalGrows(kp, ki, kd, g.a0, g.a1, g.a2, xs);
      DivMod(Increment(g, s, x), 0x8000);
    }
  }

  /** A sample adds one increment to the positional controller, in either format. */
  lemma PositionalGrows(kp: int, ki: int, kd: int, a0: int, a1: int, a2: int, xs: seq<int>)
    requires a0 == kp + ki + kd && a1 == -kp - 2 * kd && a2 == kd && xs != []
    ensures var before := xs[..|xs| - 1];
            Positional(kp, ki, kd, xs) - Positional(kp, ki, kd, before)
            == a0 * Last(xs) + a1 * Last(before) + a2 * LastButOne(before)
  {
    var before := xs[..|xs| - 1];
    assert LastButOne(xs) == Last(before);
    Telescope(kp, ki, kd, Last(before), LastButOne(before), Last(xs), Sum(before));
  }

  lemma Telescope(kp: int, ki: int, kd: int, x1: int, x2: int, x: int, sum: int)
    ensures kp * x + ki * (sum + x) + kd * (x - x1)
         == (kp * x1 + ki * sum + kd * (x1 - x2)) + ((kp + ki + kd) * x + (-kp - 2 * kd) * x1 + kd * x2)
  {
  }

  // ---------------------------------------------------------------- the instances

  /** `arm_pid_instance_q15` of the plain build. */
  class InstanceQ15 {
    var A0: q15
    var A1: q15
    var A2: q15
    const state: array<q15>

    ghost predicate Valid()
      reads this
    {
      state.Length == 3
    }

    ghost function Coefficients(): Gains
      reads this
    {
      Gains(A0, A1, A2)
    }

    ghost function Snapshot(): State
      requires Valid()
      reads this, state
    {
      State(state[0], state[1], state[2])
    }

    constructor (g: Gains)
      ensures Valid() && fresh(state)
      ensures Coefficients() == g && Snapshot() == ZERO_STATE
    {
      A0, A1, A2 := g.a0, g.a1, g.a2;
      state := new q15[3](_ => 0);
    }

    /** `arm_pid_q15` without ARM_MATH_DSP. */
    method Process(x: q15) returns (out: q15)
      requires Valid()
      modifies state
      ensures Valid()
      ensures Snapshot() == PlainStep(Coefficients(), old(Snapshot()), x)
      ensures State(state[0], state[1], out)
           == PlainStep(Gains(A0, A1, A2), State(old(state[0]), old(state[1]), old(state[2])), x)
      ensures out == Snapshot().y
      ensures state[0] == x && state[1] == old(state[0]) && state[2] == out
    {
      hide ToI32, ToI64, Ssat, ToI16;
      var acc: q63 := ToI32(A0 * x);
      acc := ToI64(acc + ToI32(A1 * state[0]));
      acc := ToI64(acc + ToI32(A2 * state[1]));
      acc := ToI64(acc + ToI32(state[2] as int * 0x8000));
      out := ToI16(Ssat(ToI32(acc / 0x8000), 16));
      state[1] := state[0];
      state[0] := x;
      state[2] := out;
    }
  }

  /** `arm_pid_instance_q15` of the DSP build: the gains A1 and A2 share one word. */
  class InstanceQ15Dsp {
    var A0: q15
    var A1: q31
    ghost var gains: Gains
    const state: array<q15>

    ghost predicate Valid()
      reads this
    {
      state.Length == 3 && A0 == gains.a0 && A1 == ReadQ15x2(gains.a1, gains.a2)
    }

    ghost function Snapshot(): State
      requires Valid()
      reads this, state
    {
      State(state[0], state[1], state[2])
    }

    constructor (g: Gains)
      ensures Valid() && fresh(state)
      ensures gains == g && Snapshot() == ZERO_STATE
    {
      A0, A1, gains := g.a0, ReadQ15x2(g.a1, g.a2), g;
      state := new q15[3](_ => 0);
    }

    /** `arm_pid_q15` with ARM_MATH_DSP. */
    method Process(x: q15) returns (out: q15)
      requires Valid()
      modifies state
      ensures Valid()
      ensures Snapshot() == DspStep(gains, old(Snapshot()), x)
      ensures State(state[0], state[1], out)
           == DspStep(gains, State(old(state[0]), old(state[1]), old(state[2])), x)
      ensures out == Snapshot().y
      ensures state[0] == x && state[1] == old(state[0]) && state[2] == out
    {
      hide Smuad, SmlaldInstruction, ReadQ15x2, ToI32, ToI64, ToU64, ToU32, Ssat, ToI16;
      var acc: q63 := ToI32(Smuad(ToU32(A0), ToU32(x)));
      acc := ToI64(SmlaldInstruction(ToU32(A1), ToU32(ReadQ15x2(state[0], state[1])), ToU64(acc)));
      acc := ToI64(acc + ToI32(state[2] as int * 0x8000));
      out := ToI16(Ssat(ToI32(acc / 0x8000), 16));
      state[1] := state[0];
      state[0] := x;
      state[2] := out;
    }
  }
}
