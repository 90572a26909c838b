/** The incremental PID controller `arm_pid_q31`, whose output wraps. */
module PidQ31 {
  import opened Arith
  import opened FixedPoint
  import opened PackedMac
  import opened Pid

  // ---------------------------------------------------------------- one sample

  /** The output of `arm_pid_q31`: a 64-bit accumulator that may wrap, truncated to 32 bits
    and then added to the last output in 32 bits. */
  function OutputQ31(a0: q31, a1: q31, a2: q31, x: q31, x1: q31, x2: q31, y: q31): q31 {
    var acc0: int := ToI64(a0 * x);
    var acc1: int := ToI64(acc0 + ToI64(a1 * x1));
    var acc2: int := ToI64(acc1 + ToI64(a2 * x2));
    ToI32(ToI32(acc2 / 0x8000_0000) + y)
  }

  /** The wraps of the accumulator and of the truncation cancel: only the exact sum taken
    modulo 2^32 counts. It is the saturated sum the documentation of the function promises
    exactly when that sum fits, or is out by whole multiples of 2^32 from the limit. */
  lemma OutputQ31SaturatesIff(a0: q31, a1: q31, a2: q31, x: q31, x1: q31, x2: q31, y: q31)
    ensures var exact := y + (a0 * x + a1 * x1 + a2 * x2) / 0x8000_0000;
            && OutputQ31(a0, a1, a2, x, x1, x2, y) == ToI32(exact)
            && (OutputQ31(a0, a1, a2, x, x1, x2, y) == ClampQ31(exact) <==> WrapHitsLimit(exact))
  {
    hide ToI64, ToI32, ClampQ31, WrapHitsLimit;
    ProductQ31(a0, x);
    ProductQ31(a1, x1);
    ProductQ31(a2, x2);
    AccumulatorWraps(a0 * x, a1 * x1, a2 * x2, y);
    WrapIsClampIff(y + (a0 * x + a1 * x1 + a2 * x2) / 0x8000_0000);
  }

  predicate WrapHitsLimit(x: int) {
    || -0x8000_0000 <= x < 0x8000_0000
    || (x > 0 && x % 0x1_0000_0000 == 0x7FFF_FFFF)
    || (x < 0 && x % 0x1_0000_0000 == 0x8000_0000)
  }

  /** One unit above full scale: the documented result is the limit, the code's the least
    value. */
  lemma OutputQ31Wraps()
    ensures OutputQ31(0x4000_0000, 0, 0, 2, 0, 0, 0x7FFF_FFFF) == -0x8000_0000
    ensures ClampQ31(0x7FFF_FFFF + (0x4000_0000 * 2) / 0x8000_0000) == 0x7FFF_FFFF
  {
  }

  lemma ProductQ31(a: q31, b: q31)
    ensures -0x4000_0000_0000_0000 <= a * b <= 0x4000_0000_0000_0000
    ensures ToI64(a * b) == a * b
  {
    ProductBound(a, 0x8000_0000, b, 0x8000_0000);
  }

  lemma WrapIsClampIff(x: int)
    ensures ToI32(x) == ClampQ31(x) <==> WrapHitsLimit(x)
  {
  }

  lemma AccumulatorWraps(p0: int, p1: int, p2: int, y: q31)
    requires -0x4000_0000_0000_0000 <= p0 <= 0x4000_0000_0000_0000
    requires -0x4000_0000_0000_0000 <= p1 <= 0x4000_0000_0000_0000
    requires -0x4000_0000_0000_0000 <= p2 <= 0x4000_0000_0000_0000
    ensures ToI32(ToI32(ToI64(ToI64(p0 + p1) + p2) / 0x8000_0000) + y)
         == ToI32(y + (p0 + p1 + p2) / 0x8000_0000)
  {
    var acc := ToI64(ToI64(p0 + p1) + p2);
    var k := CastMultiple(ToI64(p0 + p1) + p2, p0 + p1);
    assert acc == p0 + p1 + p2 + k * 0x1_0000_0000_0000_0000;
    assert acc / 0x8000_0000 == (p0 + p1 + p2) / 0x8000_0000 + (2 * k) * 0x1_0000_0000;
    SameResidue(acc / 0x8000_0000, (p0 + p1 + p2) / 0x8000_0000, 2 * k, y);
  }

  lemma CastMultiple(outer: int, inner: int) returns (k: int)
    requires -0x1_0000_0000_0000_0000 <= outer <= 0x1_0000_0000_0000_0000
    requires -0x1_0000_0000_0000_0000 <= inner <= 0x1_0000_0000_0000_0000
    ensures ToI64(outer) - outer + ToI64(inner) - inner == k * 0x1_0000_0000_0000_0000
  {
    k := (ToI64(outer) - outer + ToI64(inner) - inner) / 0x1_0000_0000_0000_0000;
  }

  lemma SameResidue(v: int, w: int, k: int, y: q31)
    requires v == w + k * 0x1_0000_0000
    ensures ToI32(ToI32(v) + y) == ToI32(y + w)
  {
    hide ToI32;
    WrapSum(v, y);
    WrapShift(w + y, k);
  }

  lemma WrapSum(v: int, y: int)
    ensures ToI32(ToI32(v) + y) == ToI32(v + y)
  {
    var k := (ToI32(v) - v) / 0x1_0000_0000;
    assert ToI32(v) == v + k * 0x1_0000_0000;
    hide ToI32;
    WrapShift(v + y, k);
  }

  lemma WrapShift(w: int, k: int)
    ensures ToI32(w + k * 0x1_0000_0000) == ToI32(w)
  {
    var m := (w + 0x8000_0000) / 0x1_0000_0000;
    WrapUnique32(w, w - m * 0x1_0000_0000, m);
    WrapUnique32(w + k * 0x1_0000_0000, w - m * 0x1_0000_0000, m + k);
  }

  // ---------------------------------------------------------------- whole runs

  datatype GainsQ31 = GainsQ31(a0: q31, a1: q31, a2: q31)

  datatype StateQ31 = StateQ31(x1: q31, x2: q31, y: q31)

  const ZERO_STATE_Q31 := StateQ31(0, 0, 0)

  function StepQ31(g: GainsQ31, s: StateQ31, x: q31): StateQ31 {
    StateQ31(x, s.x1, OutputQ31(g.a0, g.a1, g.a2, x, s.x1, s.x2, s.y))
  }

  /** The state after feeding the samples to a controller that has been reset. */
  function RunQ31(g: GainsQ31, xs: seq<q31>): StateQ31 {
    if xs == [] then ZERO_STATE_Q31 else StepQ31(g, RunQ31(g, xs[..|xs| - 1]), xs[|xs| - 1])
  }

  /** The rounded-down increment that the last sample brings. */
  function LastIncrement(g: GainsQ31, xs: seq<q31>): int
    requires xs != []
  {
    var before := xs[..|xs| - 1];
    (g.a0 * Last(xs) + g.a1 * Last(before) + g.a2 * LastButOne(before)) / 0x8000_0000
  }

  /** All increments added up in unbounded arithmetic. */
  function Total(g: GainsQ31, xs: seq<q31>): int {
    if xs == [] then 0 else Total(g, xs[..|xs| - 1]) + LastIncrement(g, xs)
  }

  /** The wraps of all samples amount to a single one: after any run from reset the output is
    the total taken modulo 2^32, whatever overflowed on the way. */
  lemma {:induction false} RunIsWrappedTotal(g: GainsQ31, xs: seq<q31>)
    ensures RunQ31(g, xs) == StateQ31(Last(xs), LastButOne(xs), ToI32(Total(g, xs)))
  {
    if xs != [] {
      hide ToI32, OutputQ31;
      var before := xs[..|xs| - 1];
      RunIsWrappedTotal(g, before);
      OutputQ31SaturatesIff(g.a0, g.a1, g.a2, Last(xs), Last(before), LastButOne(before), ToI32(Total(g, before)));
      WrapSum(Total(g, before), LastIncrement(g, xs));
    }
  }

  /** The total follows the positional controller, scaled by 2^-31, with a loss of less than
    one unit per sample. */
  lemma {:induction false} TotalTracksPositional(kp: int, ki: int, kd: int, g: GainsQ31, xs: seq<q31>)
    requires g.a0 == kp + ki + kd && g.a1 == -kp - 2 * kd && g.a2 == kd
    ensures 0 <= Positional(kp, ki, kd, xs) - 0x8000_0000 * Total(g, xs) <= 0x7FFF_FFFF * |xs|
  {
    if xs != [] {
      var before := xs[..|xs| - 1];
      TotalTracksPositional(kp, ki, kd, g, before);
      PositionalGrows(kp, ki, kd, g.a0, g.a1, g.a2, xs);
      DivMod(g.a0 * Last(xs) + g.a1 * Last(before) + g.a2 * LastButOne(before), 0x8000_0000);
    }
  }

  /** So overflow does no lasting harm: at every moment at which the positional controller and
    its loss fit the word the output is right, whatever overflowed before. */
  lemma TracksPositionalQ31(kp: int, ki: int, kd: int, g: GainsQ31, xs: seq<q31>)
    requires g.a0 == kp + ki + kd && g.a1 == -kp - 2 * kd && g.a2 == kd
    ensures RunQ31(g, xs).y == Total(g, xs) <==> -0x8000_0000 <= Total(g, xs) < 0x8000_0000
    ensures var positional := Positional(kp, ki, kd, xs);
            -0x4000_0000_0000_0000 + 0x7FFF_FFFF * |xs| <= positional < 0x4000_0000_0000_0000 ==>
              0 <= positional - 0x8000_0000 * RunQ31(g, xs).y <= 0x7FFF_FFFF * |xs|
  {
    RunIsWrappedTotal(g, xs);
    TotalTracksPositional(kp, ki, kd, g, xs);
  }

  /** The controller of the documentation: every output is saturated. */
  function SaturatedRun(g: GainsQ31, xs: seq<q31>): (y: q31) {
    if xs == [] then 0 else ClampQ31(SaturatedRun(g, xs[..|xs| - 1]) + LastIncrement(g, xs))
  }

  /** The sum the documented controller saturates at the n-th sample. */
  function SumAt(g: GainsQ31, xs: seq<q31>, n: nat): int
    requires 0 < n <= |xs|
  {
    SaturatedRun(g, xs[..n - 1]) + LastIncrement(g, xs[..n])
  }

  /** Every output of a run is the documented one exactly when no sum of the documented
    controller leaves the word, but for the sums that wrap to the limit. */
  lemma RunSaturatesIff(g: GainsQ31, xs: seq<q31>)
    ensures (forall n: nat :: n <= |xs| ==> RunQ31(g, xs[..n]).y == SaturatedRun(g, xs[..n]))
       <==> forall n: nat :: 0 < n <= |xs| ==> WrapHitsLimit(SumAt(g, xs, n))
  {
    hide RunQ31, SaturatedRun, WrapHitsLimit, SumAt;
    if forall n: nat :: n <= |xs| ==> RunQ31(g, xs[..n]).y == SaturatedRun(g, xs[..n]) {
      forall n: nat | 0 < n <= |xs| ensures WrapHitsLimit(SumAt(g, xs, n)) {
        assert RunQ31(g, xs[..n - 1]).y == SaturatedRun(g, xs[..n - 1]);
        StepSaturatesIff(g, xs, n);
      }
    }
    if forall n: nat :: 0 < n <= |xs| ==> WrapHitsLimit(SumAt(g, xs, n)) {
      forall n: nat | n <= |xs| ensures RunQ31(g, xs[..n]).y == SaturatedRun(g, xs[..n]) {
        PrefixSaturates(g, xs, n);
      }
    }
  }

  lemma {:induction false} PrefixSaturates(g: GainsQ31, xs: seq<q31>, n: nat)
    requires n <= |xs| && forall k: nat :: 0 < k <= |xs| ==> WrapHitsLimit(SumAt(g, xs, k))
    ensures RunQ31(g, xs[..n]).y == SaturatedRun(g, xs[..n])
  {
    if n > 0 {
      PrefixSaturates(g, xs, n - 1);
      StepSaturatesIff(g, xs, n);
    }
  }

  lemma StepSaturatesIff(g: GainsQ31, xs: seq<q31>, n: nat)
    requires 0 < n <= |xs| && RunQ31(g, xs[..n - 1]).y == SaturatedRun(g, xs[..n - 1])
    ensures RunQ31(g, xs[..n]).y == SaturatedRun(g, xs[..n]) <==> WrapHitsLimit(SumAt(g, xs, n))
  {
    hide OutputQ31, ClampQ31, WrapHitsLimit;
    var prefix, before := xs[..n], xs[..n - 1];
    assert prefix[..n - 1] == before;
    var s := RunQ31(g, before);
    RunIsWrappedTotal(g, before);
    OutputQ31SaturatesIff(g.a0, g.a1, g.a2, Last(prefix), s.x1, s.x2, s.y);
  }

  // ---------------------------------------------------------------- the instance

  /** `arm_pid_instance_q31` */
  class InstanceQ31 {
    var A0: q31
    var A1: q31
    var A2: q31
    const state: array<q31>

    ghost predicate Valid()
      reads this
    {
      state.Length == 3
    }

    ghost function Coefficients(): GainsQ31
      reads this
    {
      GainsQ31(A0, A1, A2)
    }

    ghost function Snapshot(): StateQ31
      requires Valid()
      reads this, state
    {
      StateQ31(state[0], state[1], state[2])
    }

    constructor (g: GainsQ31)
      ensures Valid() && fresh(state)
      ensures Coefficients() == g && Snapshot() == ZERO_STATE_Q31
    {
      A0, A1, A2 := g.a0, g.a1, g.a2;
      state := new q31[3](_ => 0);
    }

    /** `arm_pid_q31` */
    method Process(x: q31) returns (out: q31)
      requires Valid()
      modifies state
      ensures Valid()
      ensures Snapshot() == StepQ31(Coefficients(), old(Snapshot()), x)
      ensures StateQ31(state[0], state[1], out)
           == StepQ31(GainsQ31(A0, A1, A2), StateQ31(old(state[0]), old(state[1]), old(state[2])), x)
      ensures out == Snapshot().y
      ensures state[0] == x && state[1] == old(state[0]) && state[2] == out
    {
      hide ToI32, ToI64;
      var acc: q63 := ToI64(A0 * x);
      acc := ToI64(acc + ToI64(A1 * state[0]));
      acc := ToI64(acc + ToI64(A2 * state[1]));
      out := ToI32(acc / 0x8000_0000);
      out := ToI32(out + state[2]);
      state[1] := state[0];
      state[0] := x;
      state[2] := out;
    }
  }
}
