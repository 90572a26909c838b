/** Interrupt priorities: the word-packed registers of core_armv8mbl.h, the byte-wide ones of
  core_armv81mml.h, and the preemption/subpriority encoding both headers share.

  `bits` is __NVIC_PRIO_BITS, the number of implemented priority bits.
  */
module NvicPriority {
  import opened Arith
  import opened FixedPoint
  import opened ByteLanes

  type PrioBits = b: nat | 1 <= b <= 8 witness 1

  // ---------------------------------------------------------------- encoding

  function PreemptBits(group: u32, bits: PrioBits): nat {
    var g := group % 8;
    if 7 - g > bits then bits else 7 - g
  }

  function SubBits(group: u32, bits: PrioBits): nat {
    var g := group % 8;
    if g + bits < 7 then 0 else (g - 7) + bits
  }

  /** Every priority bit belongs to exactly one of the two fields. */
  lemma FieldWidths(group: u32, bits: PrioBits)
    ensures PreemptBits(group, bits) + SubBits(group, bits) == bits
  {
  }

  /** The masked subpriority is or-ed below the shifted preemption priority, which leaves just
    as many bits clear. */
  function Encode(group: u32, preempt: u32, sub: u32, bits: PrioBits): int {
    var pb, sb := PreemptBits(group, bits), SubBits(group, bits);
    (preempt % Pow2(pb)) * Pow2(sb) + sub % Pow2(sb)
  }

  function Decode(priority: int, group: u32, bits: PrioBits): (int, int) {
    var pb, sb := PreemptBits(group, bits), SubBits(group, bits);
    ((priority / Pow2(sb)) % Pow2(pb), priority % Pow2(sb))
  }

  /** Decoding gives back each field reduced to its width, and the encoding uses no bit beyond
    the implemented ones. */
  lemma DecodeEncode(group: u32, preempt: u32, sub: u32, bits: PrioBits)
    ensures Decode(Encode(group, preempt, sub, bits), group, bits)
         == (preempt % Pow2(PreemptBits(group, bits)), sub % Pow2(SubBits(group, bits)))
    ensures 0 <= Encode(group, preempt, sub, bits) < Pow2(bits)
  {
    var pb, sb := PreemptBits(group, bits), SubBits(group, bits);
    var m, n := Pow2(pb), Pow2(sb);
    FieldWidths(group, bits);
    Pow2Add(pb, sb);
    DivModUnique(Encode(group, preempt, sub, bits), n, preempt % m, sub % n);
    MulLe(0, preempt % m, n);
    MulLe(preempt % m, m - 1, n);
    Distribute(m, 1, n);
    DivModUnique(preempt % m, m, 0, preempt % m);
  }

  /** Decoding takes any priority apart: its implemented bits are the preemption priority above
    a subpriority of max(0, group - 7 + bits) bits, whose widths add up to `bits`. */
  lemma DecodeSplits(priority: u32, group: u32, bits: PrioBits)
    ensures var (p, s) := Decode(priority, group, bits);
            var sub := if group % 8 + bits < 7 then 0 else group % 8 + bits - 7;
            && 0 <= s < Pow2(sub) && 0 <= p < Pow2(bits - sub)
            && priority % Pow2(bits) == p * Pow2(sub) + s
  {
    var pb, sb := PreemptBits(group, bits), SubBits(group, bits);
    var m, n := Pow2(pb), Pow2(sb);
    FieldWidths(group, bits);
    Pow2Add(pb, sb);
    hide Pow2;
    SplitTwice(priority, m, n);
  }

  lemma SplitTwice(v: nat, m: nat, n: nat)
    requires 0 < m && 0 < n
    ensures v % (m * n) == ((v / n) % m) * n + v % n
  {
    var high := v / n;
    DivMod(v, n);
    DivMod(high, m);
    Distribute((high / m) * m, high % m, n);
    Associate(high / m, m, n);
    MulLe(0, high % m, n);
    MulLe(high % m, m - 1, n);
    Distribute(m, 1, n);
    MulLe(1, m, n);
    DivModUnique(v, m * n, high / m, (high % m) * n + v % n);
  }

  /** Where the binary point lies: in the stored byte the preemption priority starts at bit
    group + 1, above the unimplemented bits if those reach further, and the subpriority fills
    the implemented bits below. */
  lemma BinaryPoint(group: u32, preempt: u32, sub: u32, bits: PrioBits)
    ensures 0 <= Encode(group, preempt, sub, bits) < 0x1_0000_0000
    ensures var g, byte := group % 8, PriorityByte(Encode(group, preempt, sub, bits), bits);
            && (g + bits >= 7 ==>
                  && byte / Pow2(g + 1) == preempt % Pow2(7 - g)
                  && byte % Pow2(g + 1) == (sub % Pow2(g + bits - 7)) * Pow2(8 - bits))
            && (g + bits < 7 ==>
                  && byte / Pow2(g + 1) == (preempt % Pow2(bits)) * Pow2(7 - g - bits)
                  && byte % Pow2(g + 1) == 0)
  {
    hide *;
    EncodeFits(group, preempt, sub, bits);
    if group % 8 + bits >= 7 {
      PointAmongImplemented(group, preempt, sub, bits);
    } else {
      PointBelowImplemented(group, preempt, sub, bits);
    }
  }

  lemma EncodeFits(group: u32, preempt: u32, sub: u32, bits: PrioBits)
    ensures 0 <= Encode(group, preempt, sub, bits) < 0x1_0000_0000
    ensures PriorityByte(Encode(group, preempt, sub, bits), bits)
         == Encode(group, preempt, sub, bits) * Pow2(8 - bits)
  {
    hide *;
    DecodeEncode(group, preempt, sub, bits);
    StoredUntruncated(Encode(group, preempt, sub, bits), bits);
  }

  lemma PointAmongImplemented(group: u32, preempt: u32, sub: u32, bits: PrioBits)
    requires group % 8 + bits >= 7 && 0 <= Encode(group, preempt, sub, bits) < 0x1_0000_0000
    ensures var g, byte := group % 8, PriorityByte(Encode(group, preempt, sub, bits), bits);
            && byte / Pow2(g + 1) == preempt % Pow2(7 - g)
            && byte % Pow2(g + 1) == (sub % Pow2(g + bits - 7)) * Pow2(8 - bits)
  {
    hide *;
    var g, e := group % 8, Encode(group, preempt, sub, bits);
    EncodeFits(group, preempt, sub, bits);
    EncodeClosedForm(group, preempt, sub, bits);
    PowerSplits(g + bits - 7, 8 - bits, g + 1);
    var n := Pow2(g + bits - 7);
    var p, s := preempt % Pow2(7 - g), sub % n;
    PointInside(e, PriorityByte(e, bits), p, s, n, Pow2(8 - bits), Pow2(g + 1));
  }

  lemma PointBelowImplemented(group: u32, preempt: u32, sub: u32, bits: PrioBits)
    requires group % 8 + bits < 7 && 0 <= Encode(group, preempt, sub, bits) < 0x1_0000_0000
    ensures var g, byte := group % 8, PriorityByte(Encode(group, preempt, sub, bits), bits);
            && byte / Pow2(g + 1) == (preempt % Pow2(bits)) * Pow2(7 - g - bits)
            && byte % Pow2(g + 1) == 0
  {
    hide *;
    var g, e := group % 8, Encode(group, preempt, sub, bits);
    EncodeFits(group, preempt, sub, bits);
    EncodeClosedForm(group, preempt, sub, bits);
    PowerSplits(7 - g - bits, g + 1, 8 - bits);
    PointBelow(e, PriorityByte(e, bits), Pow2(7 - g - bits), Pow2(8 - bits), Pow2(g + 1));
  }

  lemma PowerSplits(m: nat, n: nat, sum: nat)
    requires sum == m + n
    ensures Pow2(sum) == Pow2(m) * Pow2(n)
  {
    Pow2Add(m, n);
  }

  /** The encoding by where the group lies: a field of no bits at all contributes nothing. */
  lemma EncodeClosedForm(group: u32, preempt: u32, sub: u32, bits: PrioBits)
    ensures var g, e := group % 8, Encode(group, preempt, sub, bits);
            && (g + bits >= 7 ==>
                  e == (preempt % Pow2(7 - g)) * Pow2(g + bits - 7) + sub % Pow2(g + bits - 7))
            && (g + bits < 7 ==> e == preempt % Pow2(bits))
  {
    assert Pow2(0) == 1;
    hide Pow2;
  }

  lemma PointInside(e: int, byte: int, p: int, s: int, n: int, q: int, unit: int)
    requires e == p * n + s && byte == e * q && unit == n * q
    requires 0 <= s < n && 0 < q
    ensures 0 < unit && byte / unit == p && byte % unit == s * q
  {
    Distribute(p * n, s, q);
    Associate(p, n, q);
    MulLe(0, s, q);
    MulLe(s, n - 1, q);
    Distribute(n, 1, q);
    DivModUnique(byte, unit, p, s * q);
  }

  lemma PointBelow(e: int, byte: int, r: int, q: int, unit: int)
    requires byte == e * q && q == r * unit && 0 < unit
    ensures byte / unit == e * r && byte % unit == 0
  {
    Associate(e, r, unit);
    DivModUnique(byte, unit, e * r, 0);
  }

  /** An encoded priority fits the byte when it is stored. */
  lemma StoredUntruncated(e: int, bits: PrioBits)
    requires 0 <= e < Pow2(bits)
    ensures e < 0x1_0000_0000
    ensures PriorityByte(e, bits) == e * Pow2(8 - bits)
  {
    Pow2Add(bits, 8 - bits);
    Pow2Values();
    Pow2Monotone(bits, 8);
    var q := Pow2(8 - bits);
    MulLe(0, e, q);
    MulLe(e, Pow2(bits) - 1, q);
    Distribute(Pow2(bits), 1, q);
  }

  /** The more urgent of two (preempt, sub) pairs: the smaller preemption priority, or with
    equal ones the smaller subpriority. */
  predicate Before(p: int, s: int, p': int, s': int) {
    p < p' || (p == p' && s < s')
  }

  /** For fields in range, numeric order of the encodings is lexicographic order. */
  lemma EncodeKeepsOrder(group: u32, p: u32, s: u32, p': u32, s': u32, bits: PrioBits)
    requires p < Pow2(PreemptBits(group, bits)) && p' < Pow2(PreemptBits(group, bits))
    requires s < Pow2(SubBits(group, bits)) && s' < Pow2(SubBits(group, bits))
    ensures Encode(group, p, s, bits) < Encode(group, p', s', bits) <==> Before(p, s, p', s')
  {
    var m, n := Pow2(PreemptBits(group, bits)), Pow2(SubBits(group, bits));
    DivModUnique(p, m, 0, p);
    DivModUnique(p', m, 0, p');
    DivModUnique(s, n, 0, s);
    DivModUnique(s', n, 0, s');
    if p < p' { MulLe(p + 1, p', n); Distribute(p, 1, n); }
    if p' < p { MulLe(p' + 1, p, n); Distribute(p', 1, n); }
  }

  // ---------------------------------------------------------------- priority bytes

  /** `(priority << (8 - bits)) & 0xFF` */
  function PriorityByte(priority: u32, bits: PrioBits): u8 {
    ToU32(priority * Pow2(8 - bits)) % 0x100
  }

  /** `byte >> (8 - bits)` */
  function PriorityOf(byte: u8, bits: PrioBits): int {
    byte / Pow2(8 - bits)
  }

  /** A stored priority reads back as its implemented bits. */
  lemma PriorityOfByte(priority: u32, bits: PrioBits)
    ensures PriorityOf(PriorityByte(priority, bits), bits) == priority % Pow2(bits)
  {
    var p, q := Pow2(8 - bits), Pow2(bits);
    assert p * q == 0x100 by {
      Pow2Add(8 - bits, bits);
      Pow2Values();
    }
    MulLe(0, priority, p);
    hide Pow2;
    LowByte(priority * p);
    ShiftedBack(priority, p, q);
  }

  lemma ShiftedBack(v: nat, p: nat, q: nat)
    requires p > 0 && q > 0 && p * q == 0x100
    ensures ((v * p) % 0x100) / p == v % q
  {
    ShiftKeepsLowBits(v, p, q);
    DivModUnique((v % q) * p, p, v % q, 0);
  }

  lemma LowByte(x: int)
    requires 0 <= x
    ensures ToU32(x) % 0x100 == x % 0x100
  {
  }

  // ---------------------------------------------------------------- packed registers

  /** Interrupt numbers both profiles implement: external ones, and the exceptions with a
    settable priority of the baseline profile as negative numbers. */
  predicate CommonIrq(irqn: int) {
    -8 <= irqn < 496
  }

  datatype PackedRegs = PackedRegs(ipr: seq<u32>, shpr: seq<u32>) {
    predicate Valid() { |ipr| == 124 && |shpr| == 2 }
  }

  /** `_BIT_SHIFT` in bytes. */
  function LaneOf(irqn: int): nat { irqn % 4 }

  /** `_SHP_IDX` */
  function ShpIndex(irqn: int): int { (irqn % 16 - 8) / 4 }

  /** `_IP_IDX` */
  function IpIndex(irqn: int): int { ToU32(irqn) / 4 }

  lemma IndicesInside(irqn: int)
    requires CommonIrq(irqn)
    ensures irqn >= 0 ==> 0 <= IpIndex(irqn) < 124
    ensures irqn < 0 ==> 0 <= ShpIndex(irqn) < 2
  {
  }

  function PackedSet(r: PackedRegs, irqn: int, priority: u32, bits: PrioBits): (after: PackedRegs)
    requires r.Valid() && CommonIrq(irqn)
    ensures after.Valid()
  {
    IndicesInside(irqn);
    var byte := PriorityByte(priority, bits);
    if irqn >= 0 then
      var i := IpIndex(irqn);
      r.(ipr := r.ipr[i := WithLane(r.ipr[i], LaneOf(irqn), byte)])
    else
      var i := ShpIndex(irqn);
      r.(shpr := r.shpr[i := WithLane(r.shpr[i], LaneOf(irqn), byte)])
  }

  function PackedByte(r: PackedRegs, irqn: int): u8
    requires r.Valid() && CommonIrq(irqn)
  {
    IndicesInside(irqn);
    if irqn >= 0 then Lane(r.ipr[IpIndex(irqn)], LaneOf(irqn)) else Lane(r.shpr[ShpIndex(irqn)], LaneOf(irqn))
  }

  function PackedGet(r: PackedRegs, irqn: int, bits: PrioBits): int
    requires r.Valid() && CommonIrq(irqn)
  {
    PriorityOf(PackedByte(r, irqn), bits)
  }

  /** Byte irqn % 4 of word irqn / 4 belongs to an external interrupt, and the same byte of word
    (irqn % 16 - 8) / 4 to an exception: what a get reads ... */
  lemma PackedGetReads(r: PackedRegs, irqn: int, bits: PrioBits)
    requires r.Valid() && CommonIrq(irqn)
    ensures irqn >= 0 ==>
              PackedGet(r, irqn, bits) == ((r.ipr[irqn / 4] / Pow2(8 * (irqn % 4))) % 0x100) / Pow2(8 - bits)
    ensures irqn < 0 ==>
              PackedGet(r, irqn, bits)
              == ((r.shpr[(irqn % 16 - 8) / 4] / Pow2(8 * (irqn % 4))) % 0x100) / Pow2(8 - bits)
  {
    LaneIsByte(if irqn >= 0 then r.ipr[irqn / 4] else r.shpr[(irqn % 16 - 8) / 4], irqn % 4);
    hide Lane, Pow2;
  }

  /** ... and what a set writes: one word, in which the other three bytes are kept. */
  lemma PackedSetWrites(r: PackedRegs, irqn: int, priority: u32, bits: PrioBits)
    requires r.Valid() && CommonIrq(irqn)
    ensures var after, i, byte := PackedSet(r, irqn, priority, bits), irqn / 4, (priority * Pow2(8 - bits)) % 0x100;
            irqn >= 0 ==>
              && after.shpr == r.shpr && after.ipr == r.ipr[i := after.ipr[i]]
              && ReplacesByte(r.ipr[i], after.ipr[i], irqn % 4, byte)
    ensures var after, i := PackedSet(r, irqn, priority, bits), (irqn % 16 - 8) / 4;
            var byte := (priority * Pow2(8 - bits)) % 0x100;
            irqn < 0 ==>
              && after.ipr == r.ipr && after.shpr == r.shpr[i := after.shpr[i]]
              && ReplacesByte(r.shpr[i], after.shpr[i], irqn % 4, byte)
  {
    MulLe(0, priority, Pow2(8 - bits));
    LowByte(priority * Pow2(8 - bits));
    ReplacesByteHolds(if irqn >= 0 then r.ipr[irqn / 4] else r.shpr[(irqn % 16 - 8) / 4], irqn % 4,
                      PriorityByte(priority, bits));
    hide Lane, WithLane, Pow2, ReplacesByte;
  }

  /** Setting one interrupt's priority rewrites that interrupt's byte and no other. */
  lemma PackedSetIndependent(r: PackedRegs, irqn: int, priority: u32, bits: PrioBits, other: int)
    requires r.Valid() && CommonIrq(irqn) && CommonIrq(other)
    ensures PackedByte(PackedSet(r, irqn, priority, bits), other)
         == if other == irqn then PriorityByte(priority, bits) else PackedByte(r, other)
  {
    IndicesInside(irqn);
    IndicesInside(other);
    SameFieldIff(irqn, other);
    var byte := PriorityByte(priority, bits);
    hide PriorityByte, WithLane, Lane, IpIndex, ShpIndex, LaneOf;
    if irqn >= 0 {
      LaneOfWithLane(r.ipr[IpIndex(irqn)], LaneOf(irqn), byte, LaneOf(other));
    } else {
      LaneOfWithLane(r.shpr[ShpIndex(irqn)], LaneOf(irqn), byte, LaneOf(other));
    }
  }

  /** Two interrupts of the same kind share a byte only if they are the same. */
  lemma SameFieldIff(irqn: int, other: int)
    requires CommonIrq(irqn) && CommonIrq(other)
    ensures LaneOf(irqn) < 4 && LaneOf(other) < 4
    ensures irqn >= 0 && other >= 0 ==>
              (irqn == other <==> IpIndex(irqn) == IpIndex(other) && LaneOf(irqn) == LaneOf(other))
    ensures irqn < 0 && other < 0 ==>
              (irqn == other <==> ShpIndex(irqn) == ShpIndex(other) && LaneOf(irqn) == LaneOf(other))
  {
  }

  // ---------------------------------------------------------------- byte registers

  datatype ByteRegs = ByteRegs(ipr: seq<u8>, shpr: seq<u8>) {
    predicate Valid() { |ipr| == 496 && |shpr| == 12 }
  }

  /** The byte-wide profile also has settable priorities for exceptions -12 to -9. */
  predicate ByteIrq(irqn: int) {
    -12 <= irqn < 496
  }

  function ByteSet(r: ByteRegs, irqn: int, priority: u32, bits: PrioBits): (after: ByteRegs)
    requires r.Valid() && ByteIrq(irqn)
    ensures after.Valid()
  {
    var byte := PriorityByte(priority, bits);
    if irqn >= 0 then r.(ipr := r.ipr[irqn := byte])
    else r.(shpr := r.shpr[irqn % 16 - 4 := byte])
  }

  function ByteAt(r: ByteRegs, irqn: int): u8
    requires r.Valid() && ByteIrq(irqn)
  {
    if irqn >= 0 then r.ipr[irqn] else r.shpr[irqn % 16 - 4]
  }

  function ByteGet(r: ByteRegs, irqn: int, bits: PrioBits): int
    requires r.Valid() && ByteIrq(irqn)
  {
    PriorityOf(ByteAt(r, irqn), bits)
  }

  /** Each interrupt has a register of its own: number irqn, or irqn + 12 for an exception. */
  lemma ByteSlots(r: ByteRegs, irqn: int, priority: u32, bits: PrioBits)
    requires r.Valid() && ByteIrq(irqn)
    ensures var byte := (priority * Pow2(8 - bits)) % 0x100;
            ByteSet(r, irqn, priority, bits)
            == if irqn >= 0 then ByteRegs(r.ipr[irqn := byte], r.shpr) else ByteRegs(r.ipr, r.shpr[irqn + 12 := byte])
    ensures ByteGet(r, irqn, bits) == (if irqn >= 0 then r.ipr[irqn] else r.shpr[irqn + 12]) / Pow2(8 - bits)
  {
    MulLe(0, priority, Pow2(8 - bits));
    LowByte(priority * Pow2(8 - bits));
  }

  lemma ByteSetIndependent(r: ByteRegs, irqn: int, priority: u32, bits: PrioBits, other: int)
    requires r.Valid() && ByteIrq(irqn) && ByteIrq(other)
    ensures ByteAt(ByteSet(r, irqn, priority, bits), other)
         == if other == irqn then PriorityByte(priority, bits) else ByteAt(r, other)
  {
    hide PriorityByte;
  }

  // ---------------------------------------------------------------- refinement

  /** A word is four consecutive byte registers, lowest first. */
  predicate IsWord(w: u32, bytes: seq<u8>, i: nat)
    requires i + 3 < |bytes|
  {
    var b0: int, b1: int, b2: int, b3: int := bytes[i], bytes[i + 1], bytes[i + 2], bytes[i + 3];
    w == b0 + b1 * 0x100 + b2 * 0x1_0000 + b3 * 0x100_0000
  }

  /** Packing the byte registers four to a word, from the lowest on, gives the packed ones. The
    first four bytes for exceptions have no counterpart in the baseline profile. */
  ghost predicate Refines(p: PackedRegs, b: ByteRegs) {
    && p.Valid() && b.Valid()
    && (forall i: nat :: i < 124 ==> IsWord(p.ipr[i], b.ipr, 4 * i))
    && (forall i: nat :: i < 2 ==> IsWord(p.shpr[i], b.shpr, 4 * i + 4))
  }

  /** That is to say that both hold the same byte for every interrupt both profiles have. */
  ghost predicate SameBytes(p: PackedRegs, b: ByteRegs) {
    && p.Valid() && b.Valid()
    && forall irqn :: CommonIrq(irqn) ==> PackedByte(p, irqn) == ByteAt(b, irqn)
  }

  lemma RefinesIff(p: PackedRegs, b: ByteRegs)
    ensures Refines(p, b) <==> SameBytes(p, b)
  {
    if Refines(p, b) {
      forall irqn | CommonIrq(irqn) ensures PackedByte(p, irqn) == ByteAt(b, irqn) {
        WordHoldsByte(p, b, irqn);
      }
    }
    if SameBytes(p, b) {
      forall i: nat | i < 124 ensures IsWord(p.ipr[i], b.ipr, 4 * i) { ExternalWord(p, b, i); }
      forall i: nat | i < 2 ensures IsWord(p.shpr[i], b.shpr, 4 * i + 4) { ExceptionWord(p, b, i); }
    }
  }

  lemma WordHoldsByte(p: PackedRegs, b: ByteRegs, irqn: int)
    requires Refines(p, b) && CommonIrq(irqn)
    ensures PackedByte(p, irqn) == ByteAt(b, irqn)
  {
    hide Lane;
    IndicesInside(irqn);
    if irqn >= 0 {
      var i := irqn / 4;
      assert IsWord(p.ipr[i], b.ipr, 4 * i);
      LanesUnique(p.ipr[i], b.ipr[4 * i], b.ipr[4 * i + 1], b.ipr[4 * i + 2], b.ipr[4 * i + 3]);
    } else {
      var i := (irqn + 8) / 4;
      assert IsWord(p.shpr[i], b.shpr, 4 * i + 4);
      LanesUnique(p.shpr[i], b.shpr[4 * i + 4], b.shpr[4 * i + 5], b.shpr[4 * i + 6], b.shpr[4 * i + 7]);
    }
  }

  lemma ExternalWord(p: PackedRegs, b: ByteRegs, i: nat)
    requires SameBytes(p, b) && i < 124
    ensures IsWord(p.ipr[i], b.ipr, 4 * i)
  {
    hide Lane;
    Lanes(p.ipr[i]);
    forall lane: nat | lane < 4 ensures Lane(p.ipr[i], lane) == b.ipr[4 * i + lane] {
      assert PackedByte(p, 4 * i + lane) == ByteAt(b, 4 * i + lane);
    }
  }

  lemma ExceptionWord(p: PackedRegs, b: ByteRegs, i: nat)
    requires SameBytes(p, b) && i < 2
    ensures IsWord(p.shpr[i], b.shpr, 4 * i + 4)
  {
    hide Lane;
    Lanes(p.shpr[i]);
    forall lane: nat | lane < 4 ensures Lane(p.shpr[i], lane) == b.shpr[4 * i + 4 + lane] {
      assert PackedByte(p, 4 * i + lane - 8) == ByteAt(b, 4 * i + lane - 8);
    }
  }

  /** After reset, with all registers zero, the refinement holds. */
  lemma ResetRefines()
    ensures Refines(PackedRegs(seq(124, _ => 0), seq(2, _ => 0)), ByteRegs(seq(496, _ => 0), seq(12, _ => 0)))
  {
  }

  datatype Op = SetPriority(irqn: int, priority: u32) | GetPriority(irqn: int)

  ghost predicate CommonOps(ops: seq<Op>) {
    forall i :: 0 <= i < |ops| ==> CommonIrq(ops[i].irqn)
  }

  /** The values returned by the Get calls of a run, and the registers after it. */
  function PackedRun(r: PackedRegs, ops: seq<Op>, bits: PrioBits): (result: (PackedRegs, seq<int>))
    requires r.Valid() && CommonOps(ops)
    ensures result.0.Valid()
    decreases |ops|
  {
    if ops == [] then (r, [])
    else match ops[0]
      case SetPriority(irqn, priority) => PackedRun(PackedSet(r, irqn, priority, bits), ops[1..], bits)
      case GetPriority(irqn) =>
        var rest := PackedRun(r, ops[1..], bits);
        (rest.0, [PackedGet(r, irqn, bits)] + rest.1)
  }

  function ByteRun(r: ByteRegs, ops: seq<Op>, bits: PrioBits): (result: (ByteRegs, seq<int>))
    requires r.Valid() && CommonOps(ops)
    ensures result.0.Valid()
    decreases |ops|
  {
    if ops == [] then (r, [])
    else match ops[0]
      case SetPriority(irqn, priority) => ByteRun(ByteSet(r, irqn, priority, bits), ops[1..], bits)
      case GetPriority(irqn) =>
        var rest := ByteRun(r, ops[1..], bits);
        (rest.0, [ByteGet(r, irqn, bits)] + rest.1)
  }

  lemma SetKeepsRefinement(p: PackedRegs, b: ByteRegs, irqn: int, priority: u32, bits: PrioBits)
    requires Refines(p, b) && CommonIrq(irqn)
    ensures Refines(PackedSet(p, irqn, priority, bits), ByteSet(b, irqn, priority, bits))
  {
    hide Refines, PackedByte, ByteAt, PackedSet, ByteSet;
    RefinesIff(p, b);
    RefinesIff(PackedSet(p, irqn, priority, bits), ByteSet(b, irqn, priority, bits));
    forall other | CommonIrq(other)
      ensures PackedByte(PackedSet(p, irqn, priority, bits), other) == ByteAt(ByteSet(b, irqn, priority, bits), other)
    {
      PackedSetIndependent(p, irqn, priority, bits, other);
      ByteSetIndependent(b, irqn, priority, bits, other);
    }
  }

  /** Over every sequence of calls the two profiles return the same values. */
  lemma {:induction false} PackedRunRefinesByteRun(p: PackedRegs, b: ByteRegs, ops: seq<Op>, bits: PrioBits)
    requires Refines(p, b) && CommonOps(ops)
    ensures Refines(PackedRun(p, ops, bits).0, ByteRun(b, ops, bits).0)
    ensures PackedRun(p, ops, bits).1 == ByteRun(b, ops, bits).1
    decreases |ops|
  {
    hide Refines;
    RefinesIff(p, b);
    if ops != [] {
      match ops[0] {
        case SetPriority(irqn, priority) =>
          SetKeepsRefinement(p, b, irqn, priority, bits);
          PackedRunRefinesByteRun(PackedSet(p, irqn, priority, bits), ByteSet(b, irqn, priority, bits), ops[1..], bits);
        case GetPriority(irqn) =>
          PackedRunRefinesByteRun(p, b, ops[1..], bits);
      }
    }
  }

  /** What is read is what was last written for that interrupt, as far as implemented. */
  lemma GetAfterSet(r: PackedRegs, irqn: int, priority: u32, bits: PrioBits, other: int)
    requires r.Valid() && CommonIrq(irqn) && CommonIrq(other)
    ensures PackedGet(PackedSet(r, irqn, priority, bits), other, bits)
         == if other == irqn then priority % Pow2(bits) else PackedGet(r, other, bits)
  {
    PackedSetIndependent(r, irqn, priority, bits, other);
    PriorityOfByte(priority, bits);
  }

  /** The whole chain: encode, set, get, decode. */
  lemma EncodeSetGetDecode(r: PackedRegs, irqn: int, group: u32, preempt: u32, sub: u32, bits: PrioBits)
    requires r.Valid() && CommonIrq(irqn)
    ensures 0 <= Encode(group, preempt, sub, bits) < 0x1_0000_0000
    ensures Decode(PackedGet(PackedSet(r, irqn, Encode(group, preempt, sub, bits), bits), irqn, bits), group, bits)
         == (preempt % Pow2(PreemptBits(group, bits)), sub % Pow2(SubBits(group, bits)))
  {
    var e := Encode(group, preempt, sub, bits);
    DecodeEncode(group, preempt, sub, bits);
    hide Encode, Decode, PreemptBits, SubBits, PackedSet, PackedGet;
    Pow2Monotone(bits, 32);
    Pow2Values();
    GetAfterSet(r, irqn, e, bits, irqn);
    DivModUnique(e, Pow2(bits), 0, e);
  }

  // ---------------------------------------------------------------- the units

  /** The priority registers of the baseline profile. */
  class PackedNvic {
    const ipr: array<u32>
    const shpr: array<u32>

    ghost predicate Valid()
      reads this
    {
      ipr.Length == 124 && shpr.Length == 2 && ipr != shpr
    }

    ghost function Regs(): (r: PackedRegs)
      requires Valid()
      reads this, ipr, shpr
      ensures r.Valid()
    {
      PackedRegs(ipr[..], shpr[..])
    }

    constructor ()
      ensures Valid() && fresh(ipr) && fresh(shpr)
      ensures forall i :: 0 <= i < 124 ==> ipr[i] == 0
      ensures forall i :: 0 <= i < 2 ==> shpr[i] == 0
    {
      ipr := new u32[124](_ => 0);
      shpr := new u32[2](_ => 0);
    }

    /** `__NVIC_SetPriority`: read, mask, or and write one word. */
    method SetPriority(irqn: int, priority: u32, bits: PrioBits)
      requires Valid() && CommonIrq(irqn)
      modifies ipr, shpr
      ensures Valid() && Regs() == PackedSet(old(Regs()), irqn, priority, bits)
      ensures irqn >= 0 ==>
                ReplacesByte(old(ipr[irqn / 4]), ipr[irqn / 4], irqn % 4, (priority * Pow2(8 - bits)) % 0x100)
      ensures irqn < 0 ==>
                ReplacesByte(old(shpr[(irqn % 16 - 8) / 4]), shpr[(irqn % 16 - 8) / 4], irqn % 4,
                             (priority * Pow2(8 - bits)) % 0x100)
    {
      PackedSetWrites(Regs(), irqn, priority, bits);
      hide ReplacesByte, PriorityByte, Pow2;
      IndicesInside(irqn);
      if irqn >= 0 {
        var i := IpIndex(irqn);
        ipr[i] := WithLane(ipr[i], LaneOf(irqn), PriorityByte(priority, bits));
      } else {
        var i := ShpIndex(irqn);
        shpr[i] := WithLane(shpr[i], LaneOf(irqn), PriorityByte(priority, bits));
      }
    }

    /** `__NVIC_GetPriority` */
    method GetPriority(irqn: int, bits: PrioBits) returns (priority: int)
      requires Valid() && CommonIrq(irqn)
      ensures priority == PackedGet(Regs(), irqn, bits)
      ensures irqn >= 0 ==> priority == ((ipr[irqn / 4] / Pow2(8 * (irqn % 4))) % 0x100) / Pow2(8 - bits)
      ensures irqn < 0 ==>
                priority == ((shpr[(irqn % 16 - 8) / 4] / Pow2(8 * (irqn % 4))) % 0x100) / Pow2(8 - bits)
    {
      PackedGetReads(Regs(), irqn, bits);
      hide Lane, PriorityOf, Pow2;
      IndicesInside(irqn);
      if irqn >= 0 {
        priority := PriorityOf(Lane(ipr[IpIndex(irqn)], LaneOf(irqn)), bits);
      } else {
        priority := PriorityOf(Lane(shpr[ShpIndex(irqn)], LaneOf(irqn)), bits);
      }
    }
  }

  /** The priority registers of the mainline profile. */
  class ByteNvic {
    const ipr: array<u8>
    const shpr: array<u8>

    ghost predicate Valid()
      reads this
    {
      ipr.Length == 496 && shpr.Length == 12 && ipr != shpr
    }

    ghost function Regs(): (r: ByteRegs)
      requires Valid()
      reads this, ipr, shpr
      ensures r.Valid()
    {
      ByteRegs(ipr[..], shpr[..])
    }

    constructor ()
      ensures Valid() && fresh(ipr) && fresh(shpr)
      ensures forall i :: 0 <= i < 496 ==> ipr[i] == 0
      ensures forall i :: 0 <= i < 12 ==> shpr[i] == 0
    {
      ipr := new u8[496](_ => 0);
      shpr := new u8[12](_ => 0);
    }

    method SetPriority(irqn: int, priority: u32, bits: PrioBits)
      requires Valid() && ByteIrq(irqn)
      modifies ipr, shpr
      ensures Valid() && Regs() == ByteSet(old(Regs()), irqn, priority, bits)
    {
      if irqn >= 0 {
        ipr[irqn] := PriorityByte(priority, bits);
      } else {
        shpr[irqn % 16 - 4] := PriorityByte(priority, bits);
      }
    }

    method GetPriority(irqn: int, bits: PrioBits) returns (priority: int)
      requires Valid() && ByteIrq(irqn)
      ensures priority == ByteGet(Regs(), irqn, bits)
    {
      if irqn >= 0 {
        priority := PriorityOf(ipr[irqn], bits);
      } else {
        priority := PriorityOf(shpr[irqn % 16 - 4], bits);
      }
    }
  }
}
