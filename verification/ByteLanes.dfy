/** Four bytes packed into a 32-bit register, rewritten one at a time by mask and shift.

  Words are unsigned integers: `x >> n` is `x / 2^n`, `x & (2^n - 1)` is `x % 2^n`, clearing a
  field subtracts it, and or-ing a value into a cleared field adds it.
  */
module ByteLanes {
  import opened Arith
  import opened FixedPoint

  /** `1 << (8 * lane)` */
  function Unit(lane: nat): (unit: nat)
    requires lane < 4
    ensures unit > 0
  {
    if lane == 0 then 0x1 else if lane == 1 then 0x100 else if lane == 2 then 0x1_0000 else 0x100_0000
  }

  /** `(w >> (8 * lane)) & 0xFF` */
  function Lane(w: u32, lane: nat): u8
    requires lane < 4
  {
    (w / Unit(lane)) % 0x100
  }

  /** `w & ~(0xFF << (8 * lane))` */
  function Cleared(w: u32, lane: nat): int
    requires lane < 4
  {
    w - Lane(w, lane) * Unit(lane)
  }

  /** `(w & ~(0xFF << (8 * lane))) | (byte << (8 * lane))` */
  function WithLane(w: u32, lane: nat, byte: u8): u32
    requires lane < 4
  {
    WithLaneFits(w, lane, byte);
    Cleared(w, lane) + byte * Unit(lane)
  }

  lemma WithLaneFits(w: u32, lane: nat, byte: u8)
    requires lane < 4
    ensures 0 <= Cleared(w, lane) + byte * Unit(lane) < 0x1_0000_0000
  {
    Lanes(w);
    hide Lane;
    assert Cleared(w, lane) == w - Lane(w, lane) * Unit(lane);
    hide Cleared;
  }

  /** A word is its four bytes. */
  lemma Lanes(w: u32)
    ensures w == Lane(w, 0) + Lane(w, 1) * 0x100 + Lane(w, 2) * 0x1_0000 + Lane(w, 3) * 0x100_0000
  {
    var high1 := w / 0x100;
    var high2 := high1 / 0x100;
    var b0, b1, b2, b3 := w % 0x100, high1 % 0x100, high2 % 0x100, high2 / 0x100;
    LanesUnique(w, b0, b1, b2, b3);
  }

  lemma LanesUnique(w: u32, b0: u8, b1: u8, b2: u8, b3: u8)
    requires w == b0 + b1 * 0x100 + b2 * 0x1_0000 + b3 * 0x100_0000
    ensures Lane(w, 0) == b0 && Lane(w, 1) == b1 && Lane(w, 2) == b2 && Lane(w, 3) == b3
  {
    var high2 := b2 + b3 * 0x100;
    var high1 := b1 + high2 * 0x100;
    DivModUnique(w, 1, w, 0);
    DivModUnique(w, 0x100, high1, b0);
    DivModUnique(w, 0x1_0000, high2, b0 + b1 * 0x100);
    DivModUnique(w, 0x100_0000, b3, b0 + b1 * 0x100 + b2 * 0x1_0000);
    DivModUnique(high1, 0x100, high2, b1);
    DivModUnique(high2, 0x100, b3, b2);
    DivModUnique(b3, 0x100, 0, b3);
  }

  /** Byte `lane` of a word is the word shifted down by 8 * lane bits, modulo 2^8. */
  lemma LaneIsByte(w: u32, lane: nat)
    requires lane < 4
    ensures Lane(w, lane) == (w / Pow2(8 * lane)) % 0x100
  {
    Pow2Values();
    Pow2Add(8, 16);
    assert Pow2(0) == 1;
    assert Unit(lane) == Pow2(8 * lane);
  }

  /** Rewriting one byte changes that byte and no other. */
  lemma LaneOfWithLane(w: u32, i: nat, byte: u8, j: nat)
    requires i < 4 && j < 4
    ensures Lane(WithLane(w, i, byte), j) == if i == j then byte else Lane(w, j)
  {
    Lanes(w);
    var b0, b1, b2, b3 := Lane(w, 0), Lane(w, 1), Lane(w, 2), Lane(w, 3);
    var after := WithLane(w, i, byte);
    hide Lane;
    LanesUnique(after, if i == 0 then byte else b0, if i == 1 then byte else b1,
                if i == 2 then byte else b2, if i == 3 then byte else b3);
  }

  /** One byte of a word is replaced and the other three are kept. */
  predicate ReplacesByte(before: u32, after: u32, lane: nat, byte: u8) {
    forall k: nat :: k < 4 ==>
      (after / Pow2(8 * k)) % 0x100 == if k == lane then byte else (before / Pow2(8 * k)) % 0x100
  }

  lemma ReplacesByteHolds(w: u32, lane: nat, byte: u8)
    requires lane < 4
    ensures ReplacesByte(w, WithLane(w, lane, byte), lane, byte)
  {
    var after := WithLane(w, lane, byte);
    forall k: nat | k < 4
      ensures (after / Pow2(8 * k)) % 0x100 == if k == lane then byte else (w / Pow2(8 * k)) % 0x100
    {
      LaneOfWithLane(w, lane, byte, k);
      LaneIsByte(after, k);
      LaneIsByte(w, k);
    }
  }

  /** A field that has been cleared is zero, so that or-ing into it is adding to it. */
  lemma ClearedIsClear(w: u32, lane: nat)
    requires lane < 4
    ensures Cleared(w, lane) == WithLane(w, lane, 0) && Lane(WithLane(w, lane, 0), lane) == 0
  {
    hide Lane, Cleared, Unit;
    LaneOfWithLane(w, lane, 0, lane);
    assert 0 * Unit(lane) == 0;
  }
}
