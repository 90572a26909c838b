/** The portable bit loops of cmsis_iccarm.h and cmsis_gcc.h. */
module BitLoops {
  import opened Arith
  import opened FixedPoint

  // ---------------------------------------------------------------- __RBIT

  function BitOf(v: nat, i: nat): nat {
    (v / Pow2(i)) % 2
  }

  /** The low `n` bits of `v` in reverse order. */
  function Reverse(v: nat, n: nat): (r: nat)
    ensures r < Pow2(n)
  {
    if n == 0 then 0 else (v % 2) * Pow2(n - 1) + Reverse(v / 2, n - 1)
  }

  lemma {:induction false} ReverseMirrors(v: nat, n: nat, i: nat)
    requires i < n
    ensures BitOf(Reverse(v, n), i) == BitOf(v, n - 1 - i)
  {
    var rest := Reverse(v / 2, n - 1);
    if i == n - 1 {
      DivModUnique((v % 2) * Pow2(i) + rest, Pow2(i), v % 2, rest);
      assert BitOf(v, 0) == v % 2;
    } else {
      ReverseMirrors(v / 2, n - 1, i);
      HighPartKeepsBit(v % 2, n - 1, rest, i);
      BitOfHalf(v, n - 2 - i);
    }
  }

  lemma {:induction false} ReverseIsInvolution(v: nat, n: nat)
    requires v < Pow2(n)
    ensures Reverse(Reverse(v, n), n) == v
  {
    var w := Reverse(Reverse(v, n), n);
    forall i: nat | i < n ensures BitOf(w, i) == BitOf(v, i) {
      ReverseMirrors(Reverse(v, n), n, i);
      ReverseMirrors(v, n, n - 1 - i);
    }
    BitsDetermineValue(w, v, n);
  }

  lemma {:induction false} BitsDetermineValue(v: nat, w: nat, n: nat)
    requires v < Pow2(n) && w < Pow2(n)
    requires forall i: nat | i < n :: BitOf(v, i) == BitOf(w, i)
    ensures v == w
  {
    if n > 0 {
      assert BitOf(v, 0) == v % 2 && BitOf(w, 0) == w % 2;
      forall i: nat | i < n - 1 ensures BitOf(v / 2, i) == BitOf(w / 2, i) {
        BitOfHalf(v, i);
        BitOfHalf(w, i);
      }
      BitsDetermineValue(v / 2, w / 2, n - 1);
    }
  }

  lemma BitOfHalf(v: nat, i: nat)
    ensures BitOf(v / 2, i) == BitOf(v, i + 1)
  {
    var p := Pow2(i);
    var q := (v / 2) / p;
    DivModUnique(v, 2 * p, q, v - q * (2 * p)) by {
      assert q * p <= v / 2 < q * p + p;
      assert q * (2 * p) == 2 * (q * p);
    }
  }

  lemma HighPartKeepsBit(high: nat, m: nat, low: nat, i: nat)
    requires i < m && low < Pow2(m)
    ensures BitOf(high * Pow2(m) + low, i) == BitOf(low, i)
  {
    Pow2Add(i, m - i);
    HighPartOverP(high, Pow2(m - 1 - i), Pow2(i), low);
  }

  lemma Regroup(high: int, p: int, q: int)
    ensures high * (p * (2 * q)) == (2 * (high * q)) * p
  {
  }

  lemma HighPartOverP(high: nat, q: nat, p: nat, low: nat)
    requires 0 < p
    ensures ((high * (p * (2 * q)) + low) / p) % 2 == (low / p) % 2
  {
    Regroup(high, p, q);
    EvenHighPart(high * q, p, low);
  }

  lemma EvenHighPart(half: int, p: nat, low: nat)
    requires 0 < p
    ensures (((2 * half) * p + low) / p) % 2 == (low / p) % 2
  {
    DivMod(low, p);
    Distribute(2 * half, low / p, p);
    DivModUnique((2 * half) * p + low, p, 2 * half + low / p, low % p);
  }

  /** `r << s` in 32 bits. */
  function ShiftedUp(r: nat, s: nat): u32 {
    ToU32(r * Pow2(s))
  }

  /** The loop of `__RBIT`. Until the final shift, `r` still carries high bits of the
    argument above the bits reversed so far; the invariant only speaks about the bits that
    the final shift keeps. Bit 0 of `r` is clear after `r <<= 1`, so `r |= v & 1` adds. */
  method Rbit(value: u32) returns (r: u32)
    ensures r == Reverse(value, 32)
  {
    var s: nat := 31;
    var v: nat := value / 2;
    r := value;
    RbitStart(value);
    while v != 0
      invariant Reversing(r, v, s, value)
      decreases v
    {
      RbitStep(r, v, s, value);
      r := ToU32(2 * r);
      r := r + v % 2;
      s := s - 1;
      v := v / 2;
    }
    RbitEnd(r, s, value);
    r := ShiftedUp(r, s);
  }

  /** Shifting `r` up by s and adding the s bits of v still to come, reversed, gives the
    reversal of the argument. */
  predicate Reversing(r: u32, v: nat, s: nat, value: u32) {
    s <= 31 && v < Pow2(s) && ShiftedUp(r, s) + Reverse(v, s) == Reverse(value, 32)
  }

  /** What a pass keeps. */
  lemma RbitStep(r: u32, v: nat, s: nat, value: u32)
    requires v != 0 && Reversing(r, v, s, value)
    ensures s > 0 && ToU32(2 * r) + v % 2 < 0x1_0000_0000
    ensures Reversing(ToU32(2 * r) + v % 2, v / 2, s - 1, value)
  {
    assert Pow2(0) == 1;
    EvenDouble(r);
    HalfBelow(v, s);
    hide Pow2, Reverse, ShiftedUp, TopBit, ToU32;
    var r': u32 := ToU32(2 * r) + v % 2;
    RbitRound(r, v, s);
    ReverseUnfold(v, s);
  }

  lemma RbitEnd(r: u32, s: nat, value: u32)
    requires Reversing(r, 0, s, value)
    ensures ShiftedUp(r, s) == Reverse(value, 32)
  {
    ReverseZero(s);
  }

  lemma {:induction false} ReverseZero(n: nat)
    ensures Reverse(0, n) == 0
  {
    if n > 0 { ReverseZero(n - 1); }
  }

  lemma RbitStart(value: u32)
    ensures Reversing(value, value / 2, 31, value)
  {
    Pow2Values();
    ToU32IsMod(value * Pow2(31));
    DivModUnique(value * 0x8000_0000, 0x1_0000_0000, value / 2, (value % 2) * 0x8000_0000);
    ReverseUnfold(value, 32);
  }

  /** The lowest bit of `v`, moved to the top of n bits. */
  function TopBit(v: nat, n: nat): nat
    requires n > 0
  {
    (v % 2) * Pow2(n - 1)
  }

  lemma ReverseUnfold(v: nat, n: nat)
    requires n > 0
    ensures Reverse(v, n) == TopBit(v, n) + Reverse(v / 2, n - 1)
  {
  }

  lemma HalfBelow(v: nat, n: nat)
    requires n > 0 && v < Pow2(n)
    ensures v / 2 < Pow2(n - 1)
  {
  }

  lemma EvenDouble(r: u32)
    ensures ToU32(2 * r) % 2 == 0 && ToU32(2 * r) < 0xFFFF_FFFF
  {
  }

  lemma RbitRound(r: u32, v: nat, s: nat)
    requires 0 < s <= 31
    ensures ShiftedUp(ToU32(2 * r) + v % 2, s - 1) == ShiftedUp(r, s) + TopBit(v, s)
  {
    Pow2Values();
    Pow2Add(s, 32 - s);
    ToU32IsMod(2 * r);
    ToU32IsMod(r * Pow2(s));
    ToU32IsMod((ToU32(2 * r) + v % 2) * Pow2(s - 1));
    AppendBit(r, v % 2, Pow2(s - 1), Pow2(32 - s), 0x1_0000_0000);
  }

  lemma AppendBit(r: nat, b: nat, half: nat, q: nat, n: nat)
    requires b <= 1 && 0 < half && 0 < q && n == 2 * half * q
    ensures (((2 * r) % n + b) * half) % n == (r * (2 * half)) % n + b * half
  {
    var p, carry := 2 * half, (2 * r) / n;
    ShiftKeepsLowBits(r, p, q);
    MulLe(b, 1, half);
    MulLe(0, b, half);
    DivMod(2 * r, n);
    assert (2 * r - carry * n + b) * half == r * p - (carry * half) * n + b * half by {
      Distribute(2 * r - carry * n, b, half);
      Distribute(2 * r, carry * n, half);
      Associate(r, 2, half);
      Associate(carry, n, half);
      Associate(carry, half, n);
    }
    Distribute(r / q, carry * half, n);
    DivModUnique((2 * r - carry * n + b) * half, n, r / q - carry * half, (r % q) * p + b * half);
  }

  // ---------------------------------------------------------------- __CLZ

  /** Number of leading zeros of a 32-bit value, by shifting it up until bit 31 is set. */
  function LeadingZeros(v: u32): (c: nat)
    ensures v == 0 ==> c == 32
    ensures v > 0 ==> Brackets(c, v)
    decreases 0x1_0000_0000 - v
  {
    if v == 0 then 32
    else if v >= 0x8000_0000 then
      BracketsTop(v);
      0
    else
      var c := LeadingZeros(2 * v);
      BracketsHalf(v, c);
      1 + c
  }

  /** The highest bit of v is bit 31 - c. */
  predicate Brackets(c: nat, v: nat) {
    c < 32 && Pow2(31 - c) <= v < 2 * Pow2(31 - c)
  }

  lemma BracketsTop(v: u32)
    requires v >= 0x8000_0000
    ensures Brackets(0, v)
  {
    Pow2Values();
  }

  lemma BracketsHalf(v: nat, c: nat)
    requires v > 0 && Brackets(c, 2 * v)
    ensures Brackets(1 + c, v)
  {
    assert Pow2(0) == 1;
    if c < 31 { assert Pow2(31 - c) == 2 * Pow2(31 - (1 + c)); }
  }

  lemma LeadingZerosUnique(v: u32, c: nat)
    requires c < 32 && Pow2(31 - c) <= v < 2 * Pow2(31 - c)
    ensures c == LeadingZeros(v)
  {
    var d := LeadingZeros(v);
    assert Pow2(31 - c) < 2 * Pow2(31 - d) && Pow2(31 - d) < 2 * Pow2(31 - c);
    if c < d { Pow2Monotone(31 - d + 1, 31 - c); }
    if d < c { Pow2Monotone(31 - c + 1, 31 - d); }
  }

  lemma ClzRound(data: nat, mask: nat)
    requires 0 < mask && data < 2 * mask
    ensures (data / mask) % 2 == 0 <==> data < mask
  {
    if data < mask { DivModUnique(data, mask, 0, data); } else { DivModUnique(data, mask, 1, data - mask); }
  }

  /** The loop of `__CLZ`. `mask` always holds a single bit, so `data & mask` is zero
    exactly when that bit of `data`, `(data / mask) % 2`, is. */
  method Clz(data: u32) returns (count: nat)
    ensures count == LeadingZeros(data)
  {
    if data == 0 { return 32; }
    Pow2Values();
    count := 0;
    var mask := 0x8000_0000;
    while (data / mask) % 2 == 0
      invariant 0 <= count < 32
      invariant mask == Pow2(31 - count)
      invariant data < 2 * mask
      decreases mask
    {
      ClzRound(data, mask);
      count := count + 1;
      mask := mask / 2;
    }
    ClzRound(data, mask);
    LeadingZerosUnique(data, count);
  }
}
