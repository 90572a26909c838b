/** The circular buffer loops `arm_circularWrite_*` and `arm_circularRead_*`, whose f32, q15
  and q7 versions differ only in the sample type. */
module CircularBuffer {
  import opened Arith
  import opened FixedPoint

  // ---------------------------------------------------------------- offsets

  /** The update of an offset in both loops: one conditional subtraction, and nothing for an
    offset that has become negative. */
  function Next(length: int, offset: int, inc: int): int {
    var next := offset + inc;
    if next >= length then next - length else next
  }

  /** The comment on the update asks for positive and negative increments; it keeps every
    offset of the buffer in the buffer exactly for increments from 0 to the length. */
  lemma NextStaysInsideIff(length: int, inc: int)
    requires length > 0
    ensures (forall offset :: 0 <= offset < length ==> 0 <= Next(length, offset, inc) < length)
       <==> 0 <= inc <= length
  {
    assert inc < 0 ==> Next(length, 0, inc) < 0;
    assert inc > length ==> Next(length, length - 1, inc) >= length;
  }

  /** Stepping back by one from the first slot of a buffer of four leaves the buffer instead of
    reaching its last slot. */
  lemma NegativeStepLeavesBuffer()
    ensures Next(4, 0, -1) == -1
    ensures (0 + -1) % 4 == 3
  {
  }

  /** The offset the k-th sample is accessed at, for any increment. */
  function Offset(length: int, start: int, inc: int, k: nat): int {
    if k == 0 then start else Next(length, Offset(length, start, inc, k - 1), inc)
  }

  /** The first n accesses stay inside an array, and no update overflows 32 bits. */
  predicate OffsetsInside(length: int, start: int, inc: int, n: nat, size: nat) {
    forall k: nat :: k < n ==>
      && 0 <= Offset(length, start, inc, k) < size
      && -0x8000_0000 <= Offset(length, start, inc, k) + inc < 0x8000_0000
      && Next(length, Offset(length, start, inc, k), inc) < 0x8000_0000
  }

  /** The slot of the k-th sample of a block. */
  function Slot(length: int, start: int, inc: int, k: nat): (slot: int)
    requires length > 0
    ensures 0 <= slot < length
  {
    (start + k * inc) % length
  }

  /** One conditional subtraction is enough to keep an offset in the buffer as long as the
    increment is not negative and not above the length. */
  lemma SlotNext(length: int, start: int, inc: int, k: nat)
    requires length > 0 && 0 <= inc <= length
    ensures var next := Slot(length, start, inc, k) + inc;
            Slot(length, start, inc, k + 1) == if next >= length then next - length else next
  {
    var n := start + k * inc;
    DivMod(n, length);
    Distribute(k, 1, inc);
    var next := n % length + inc;
    var carry := if next < length then 0 else if next < 2 * length then 1 else 2;
    Distribute(n / length, carry, length);
    DivModUnique(n + inc, length, n / length + carry, next - carry * length);
  }

  /** For the increments the update is made for, offsets are slots, and so always inside. */
  lemma {:induction false} OffsetIsSlot(length: int, start: int, inc: int, k: nat)
    requires 0 <= start < length && 0 <= inc <= length
    ensures Offset(length, start, inc, k) == Slot(length, start, inc, k)
  {
    if k == 0 {
      SlotStart(length, start, inc);
    } else {
      OffsetIsSlot(length, start, inc, k - 1);
      SlotNext(length, start, inc, k - 1);
    }
  }

  /** For the others they run off in a straight line: down for a negative increment, which is
    never wrapped, and up by the excess for one above the length. */
  lemma {:induction false} OffsetRunsOff(length: int, start: int, inc: int, k: nat)
    requires 0 <= start < length
    ensures inc < 0 ==> Offset(length, start, inc, k) == start + k * inc
    ensures inc > length ==> Offset(length, start, inc, k) == start + k * (inc - length)
  {
    if k > 0 {
      OffsetRunsOff(length, start, inc, k - 1);
      Distribute(k, 1, inc);
      Distribute(k, 1, inc - length);
      if inc > length { MulLe(0, k - 1, inc - length); }
      if inc < 0 { MulLe(inc, 0, k); }
    }
  }

  lemma OffsetsAlwaysInside(length: int, start: int, inc: int, n: nat, size: nat)
    requires 0 <= start < length <= size && 0 <= inc <= length && length + inc <= 0x8000_0000
    ensures OffsetsInside(length, start, inc, n, size)
  {
    forall k: nat | k < n
      ensures 0 <= Offset(length, start, inc, k) < size
      ensures -0x8000_0000 <= Offset(length, start, inc, k) + inc < 0x8000_0000
      ensures Next(length, Offset(length, start, inc, k), inc) < 0x8000_0000
    {
      OffsetIsSlot(length, start, inc, k);
      OffsetIsSlot(length, start, inc, k + 1);
    }
  }

  lemma SlotStart(length: int, start: int, inc: int)
    requires 0 <= start < length
    ensures Slot(length, start, inc, 0) == start
  {
    DivModUnique(start, length, 0, start);
  }

  /** Offsets compose: counting on from the slot reached after m samples. */
  lemma SlotFromSlot(length: int, start: int, inc: int, m: nat, k: nat)
    requires length > 0
    ensures Slot(length, Slot(length, start, inc, m), inc, k) == Slot(length, start, inc, m + k)
  {
    var n := start + m * inc;
    DivMod(n, length);
    Distribute(m, k, inc);
    var rest := n % length + k * inc;
    DivMod(rest, length);
    Distribute(rest / length, n / length, length);
    DivModUnique(n + k * inc, length, rest / length + n / length, rest % length);
  }

  // ---------------------------------------------------------------- writing

  /** The buffer after the first n samples of the block have been written. */
  function Written<T>(buffer: seq<T>, length: int, start: int, inc: int, block: seq<T>, n: nat): (after: seq<T>)
    requires 0 < length <= |buffer| && n <= |block|
    ensures |after| == |buffer|
  {
    if n == 0 then buffer
    else Written(buffer, length, start, inc, block, n - 1)[Slot(length, start, inc, n - 1) := block[n - 1]]
  }

  /** The source pointer of the k-th sample. */
  function SourceAt(start: int, inc: int, k: nat): int {
    start + k * inc
  }

  lemma SourceNext(start: int, inc: int, k: nat)
    ensures SourceAt(start, inc, k + 1) == SourceAt(start, inc, k) + inc
  {
    Distribute(k, 1, inc);
  }

  /** n samples taken from `src` at a stride. */
  function Gathered<T>(src: seq<T>, start: int, inc: int, n: nat): (block: seq<T>)
    requires forall k: nat :: k < n ==> 0 <= SourceAt(start, inc, k) < |src|
    ensures |block| == n
  {
    if n == 0 then [] else Gathered(src, start, inc, n - 1) + [src[SourceAt(start, inc, n - 1)]]
  }

  lemma {:induction false} GatheredAt<T>(src: seq<T>, start: int, inc: int, n: nat, k: nat)
    requires forall k: nat :: k < n ==> 0 <= SourceAt(start, inc, k) < |src|
    requires k < n
    ensures SourceAt(start, inc, k) == start + k * inc
    ensures Gathered(src, start, inc, n)[k] == src[SourceAt(start, inc, k)]
  {
    if k < n - 1 { GatheredAt(src, start, inc, n - 1, k); }
  }

  /** The buffer after the first n samples have been written at their offsets, whatever the
    increment. */
  function Stored<T>(buffer: seq<T>, length: int, start: int, inc: int, block: seq<T>, n: nat): (after: seq<T>)
    requires OffsetsInside(length, start, inc, n, |buffer|) && n <= |block|
    ensures |after| == |buffer|
  {
    if n == 0 then buffer
    else Stored(buffer, length, start, inc, block, n - 1)[Offset(length, start, inc, n - 1) := block[n - 1]]
  }

  lemma StoredNext<T>(buffer: seq<T>, length: int, start: int, inc: int, block: seq<T>, n: nat)
    requires OffsetsInside(length, start, inc, n + 1, |buffer|) && n < |block|
    ensures Stored(buffer, length, start, inc, block, n + 1)
         == Stored(buffer, length, start, inc, block, n)[Offset(length, start, inc, n) := block[n]]
  {
  }

  lemma {:induction false} StoredIsWritten<T>(buffer: seq<T>, length: int, start: int, inc: int, block: seq<T>, n: nat)
    requires 0 <= start < length <= |buffer| && n <= |block|
    requires 0 <= inc <= length && length + inc <= 0x8000_0000
    ensures OffsetsInside(length, start, inc, n, |buffer|)
    ensures Stored(buffer, length, start, inc, block, n) == Written(buffer, length, start, inc, block, n)
  {
    OffsetsAlwaysInside(length, start, inc, n, |buffer|);
    if n > 0 {
      OffsetIsSlot(length, start, inc, n - 1);
      StoredIsWritten(buffer, length, start, inc, block, n - 1);
    }
  }

  /** The 16-bit cast of the write offset. */
  function StoredOffset(offset: int): (stored: nat) {
    offset % 0x1_0000
  }

  /** `arm_circularWrite_*`, for every increment whose accesses stay inside the array. The
    offset is stored back through a 16-bit cast. */
  method CircularWrite<T>(circBuffer: array<T>, length: int, writeOffset: nat, bufferInc: int,
                          src: seq<T>, srcStart: int, srcInc: int, blockSize: nat)
    returns (newOffset: nat)
    requires writeOffset < 0x1_0000
    requires OffsetsInside(length, writeOffset, bufferInc, blockSize, circBuffer.Length)
    requires forall k: nat :: k < blockSize ==> 0 <= SourceAt(srcStart, srcInc, k) < |src|
    modifies circBuffer
    ensures circBuffer[..] == Stored(old(circBuffer[..]), length, writeOffset, bufferInc,
                                     Gathered(src, srcStart, srcInc, blockSize), blockSize)
    ensures newOffset == Offset(length, writeOffset, bufferInc, blockSize) % 0x1_0000
  {
    ghost var before := circBuffer[..];
    ghost var block := Gathered(src, srcStart, srcInc, blockSize);
    var wOffset: int := writeOffset;
    var s := srcStart;
    var i := blockSize;
    ghost var k := 0;
    while i > 0
      invariant 0 <= i <= blockSize && k == blockSize - i
      invariant s == SourceAt(srcStart, srcInc, k)
      invariant wOffset == Offset(length, writeOffset, bufferInc, k)
      invariant circBuffer[..] == Stored(before, length, writeOffset, bufferInc, block, k)
    {
      hide Stored, Gathered, SourceAt, StoredOffset;
      SourceNext(srcStart, srcInc, k);
      GatheredAt(src, srcStart, srcInc, blockSize, k);
      StoredNext(before, length, writeOffset, bufferInc, block, k);
      circBuffer[wOffset] := src[s];
      s, k := s + srcInc, k + 1;
      wOffset := wOffset + bufferInc;
      if wOffset >= length {
        wOffset := wOffset - length;
      }
      i := i - 1;
    }
    newOffset := StoredOffset(wOffset);
  }

  /** What a write does for any increment: a position holds the last sample stored there, ... */
  lemma {:induction false} LastStoreWins<T>(buffer: seq<T>, length: int, start: int, inc: int,
                                            block: seq<T>, n: nat, k: nat)
    returns (last: nat)
    requires OffsetsInside(length, start, inc, n, |buffer|) && k < n <= |block|
    ensures k <= last < n && Offset(length, start, inc, last) == Offset(length, start, inc, k)
    ensures forall j: nat :: last < j < n ==> Offset(length, start, inc, j) != Offset(length, start, inc, k)
    ensures Stored(buffer, length, start, inc, block, n)[Offset(length, start, inc, k)] == block[last]
  {
    if Offset(length, start, inc, n - 1) == Offset(length, start, inc, k) {
      last := n - 1;
    } else {
      last := LastStoreWins(buffer, length, start, inc, block, n - 1, k);
    }
  }

  /** ... and one where nothing is stored keeps its value. */
  lemma {:induction false} UnstoredKept<T>(buffer: seq<T>, length: int, start: int, inc: int,
                                           block: seq<T>, n: nat, i: nat)
    requires OffsetsInside(length, start, inc, n, |buffer|) && n <= |block| && i < |buffer|
    requires forall k: nat :: k < n ==> Offset(length, start, inc, k) != i
    ensures Stored(buffer, length, start, inc, block, n)[i] == buffer[i]
  {
    if n > 0 { UnstoredKept(buffer, length, start, inc, block, n - 1, i); }
  }

  /** Slots no sample lands in keep their values. */
  lemma {:induction false} UntouchedSlotsKept<T>(buffer: seq<T>, length: int, start: int, inc: int,
                                                 block: seq<T>, n: nat, i: nat)
    requires 0 < length <= |buffer| && n <= |block| && i < |buffer|
    requires forall k :: 0 <= k < n ==> Slot(length, start, inc, k) != i
    ensures Written(buffer, length, start, inc, block, n)[i] == buffer[i]
  {
    if n > 0 { UntouchedSlotsKept(buffer, length, start, inc, block, n - 1, i); }
  }

  /** A slot holds the last sample that landed in it. */
  lemma {:induction false} LastSampleWins<T>(buffer: seq<T>, length: int, start: int, inc: int,
                                             block: seq<T>, n: nat, k: nat)
    returns (last: nat)
    requires 0 < length <= |buffer| && k < n <= |block|
    ensures k <= last < n && Slot(length, start, inc, last) == Slot(length, start, inc, k)
    ensures forall j :: last < j < n ==> Slot(length, start, inc, j) != Slot(length, start, inc, k)
    ensures Written(buffer, length, start, inc, block, n)[Slot(length, start, inc, k)] == block[last]
  {
    if Slot(length, start, inc, n - 1) == Slot(length, start, inc, k) {
      last := n - 1;
    } else {
      last := LastSampleWins(buffer, length, start, inc, block, n - 1, k);
    }
  }

  /** Writing two blocks one after the other, each from where the last one stopped, is
    writing their concatenation. */
  lemma {:induction false} WritesCompose<T>(buffer: seq<T>, length: int, start: int, inc: int,
                                            first: seq<T>, second: seq<T>, n: nat)
    requires 0 < length <= |buffer| && n <= |second|
    ensures Written(Written(buffer, length, start, inc, first, |first|),
                    length, Slot(length, start, inc, |first|), inc, second, n)
         == Written(buffer, length, start, inc, first + second, |first| + n)
  {
    if n == 0 {
      PrefixOnly(buffer, length, start, inc, first, second, |first|);
    } else {
      WritesCompose(buffer, length, start, inc, first, second, n - 1);
      SlotFromSlot(length, start, inc, |first|, n - 1);
    }
  }

  lemma {:induction false} PrefixOnly<T>(buffer: seq<T>, length: int, start: int, inc: int,
                                         first: seq<T>, second: seq<T>, n: nat)
    requires 0 < length <= |buffer| && n <= |first|
    ensures Written(buffer, length, start, inc, first + second, n) == Written(buffer, length, start, inc, first, n)
  {
    if n > 0 { PrefixOnly(buffer, length, start, inc, first, second, n - 1); }
  }

  // ---------------------------------------------------------------- reading

  /** The samples a block read takes from the buffer. */
  function BlockRead<T>(buffer: seq<T>, length: int, start: int, inc: int, n: nat): (block: seq<T>)
    requires 0 < length <= |buffer|
    ensures |block| == n
    ensures forall k :: 0 <= k < n ==> block[k] == buffer[Slot(length, start, inc, k)]
  {
    if n == 0 then []
    else BlockRead(buffer, length, start, inc, n - 1) + [buffer[Slot(length, start, inc, n - 1)]]
  }

  /** The samples at the offsets a block read visits, whatever the increment. */
  function Loaded<T>(buffer: seq<T>, length: int, start: int, inc: int, n: nat): (block: seq<T>)
    requires OffsetsInside(length, start, inc, n, |buffer|)
    ensures |block| == n
    ensures forall k: nat :: k < n ==> block[k] == buffer[Offset(length, start, inc, k)]
  {
    if n == 0 then []
    else Loaded(buffer, length, start, inc, n - 1) + [buffer[Offset(length, start, inc, n - 1)]]
  }

  lemma LoadedIsBlockRead<T>(buffer: seq<T>, length: int, start: int, inc: int, n: nat)
    requires 0 <= start < length <= |buffer|
    requires 0 <= inc <= length && length + inc <= 0x8000_0000
    ensures OffsetsInside(length, start, inc, n, |buffer|)
    ensures Loaded(buffer, length, start, inc, n) == BlockRead(buffer, length, start, inc, n)
  {
    OffsetsAlwaysInside(length, start, inc, n, |buffer|);
    forall k: nat | k < n
      ensures Loaded(buffer, length, start, inc, n)[k] == BlockRead(buffer, length, start, inc, n)[k]
    {
      OffsetIsSlot(length, start, inc, k);
    }
  }

  /** The destination pointer of the k-th sample: it wraps to the base only when a step lands
    exactly on the end. */
  function Target(start: int, base: int, end: int, inc: int, k: nat): int {
    if k == 0 then start
    else
      var next := Target(start, base, end, inc, k - 1) + inc;
      if next == end then base else next
  }

  predicate TargetsInside(start: int, base: int, end: int, inc: int, n: nat, size: nat) {
    forall k: nat :: k < n ==> 0 <= Target(start, base, end, inc, k) < size
  }

  /** The destination after the first n samples of the block have been stored. */
  function Scattered<T>(dst: seq<T>, start: int, base: int, end: int, inc: int, block: seq<T>, n: nat): (after: seq<T>)
    requires n <= |block|
    requires TargetsInside(start, base, end, inc, n, |dst|)
    ensures |after| == |dst|
  {
    if n == 0 then dst
    else Scattered(dst, start, base, end, inc, block, n - 1)[Target(start, base, end, inc, n - 1) := block[n - 1]]
  }

  /** `arm_circularRead_*`, for every increment whose accesses stay inside the array. Unlike
    the write, the offset is stored back in full. */
  method CircularRead<T>(circBuffer: array<T>, length: int, readOffset: int, bufferInc: int,
                         dst: array<T>, dstStart: int, dstBase: int, dstLength: int, dstInc: int, blockSize: nat)
    returns (newOffset: int)
    requires OffsetsInside(length, readOffset, bufferInc, blockSize, circBuffer.Length) && dst != circBuffer
    requires TargetsInside(dstStart, dstBase, dstBase + dstLength, dstInc, blockSize, dst.Length)
    modifies dst
    ensures dst[..] == Scattered(old(dst[..]), dstStart, dstBase, dstBase + dstLength, dstInc,
                                 Loaded(circBuffer[..], length, readOffset, bufferInc, blockSize), blockSize)
    ensures newOffset == Offset(length, readOffset, bufferInc, blockSize)
  {
    ghost var before, contents := dst[..], circBuffer[..];
    ghost var block := Loaded(contents, length, readOffset, bufferInc, blockSize);
    var rOffset := readOffset;
    var dstEnd := dstBase + dstLength;
    var d := dstStart;
    var i := blockSize;
    while i > 0
      invariant 0 <= i <= blockSize
      invariant circBuffer[..] == contents
      invariant d == Target(dstStart, dstBase, dstEnd, dstInc, blockSize - i)
      invariant rOffset == Offset(length, readOffset, bufferInc, blockSize - i)
      invariant dst[..] == Scattered(before, dstStart, dstBase, dstEnd, dstInc, block, blockSize - i)
    {
      dst[d] := circBuffer[rOffset];
      d := d + dstInc;
      if d == dstEnd {
        d := dstBase;
      }
      rOffset := rOffset + bufferInc;
      if rOffset >= length {
        rOffset := rOffset - length;
      }
      i := i - 1;
    }
    newOffset := rOffset;
  }

  /** A destination with room for the block, filled with step 1, ends up holding the block. */
  lemma {:induction false} ScatteredContiguously<T>(dst: seq<T>, start: int, base: int, end: int, block: seq<T>, n: nat)
    requires n <= |block| && 0 <= base <= start && start + n <= end <= |dst|
    ensures TargetsInside(start, base, end, 1, n, |dst|)
    ensures Scattered(dst, start, base, end, 1, block, n) == dst[..start] + block[..n] + dst[start + n..]
  {
    forall k: nat | k < n ensures Target(start, base, end, 1, k) == start + k {
      TargetContiguous(start, base, end, k);
    }
    if n > 0 {
      ScatteredContiguously(dst, start, base, end, block, n - 1);
      var shorter := dst[..start] + block[..n - 1] + dst[start + (n - 1)..];
      assert shorter[start + (n - 1) := block[n - 1]] == dst[..start] + block[..n] + dst[start + n..];
    }
  }

  lemma TargetContiguous(start: int, base: int, end: int, k: nat)
    requires start + k < end
    ensures Target(start, base, end, 1, k) == start + k
  {
    assert k * 1 == k;
    TargetStraight(start, base, end, 1, k);
  }

  /** For any step the pointer moves in a straight line as long as no step lands on the end ... */
  lemma {:induction false} TargetStraight(start: int, base: int, end: int, inc: int, k: nat)
    requires forall j: nat :: 0 < j <= k ==> start + j * inc != end
    ensures Target(start, base, end, inc, k) == start + k * inc
  {
    if k > 0 {
      TargetStraight(start, base, end, inc, k - 1);
      Distribute(k, 1, inc);
    }
  }

  /** ... and starts over at the base when one does. */
  lemma {:induction false} TargetRestarts(start: int, base: int, end: int, inc: int, m: nat, k: nat)
    requires 0 < m && start + m * inc == end && forall j: nat :: 0 < j < m ==> start + j * inc != end
    ensures Target(start, base, end, inc, m + k) == Target(base, base, end, inc, k)
  {
    if k == 0 {
      TargetStraight(start, base, end, inc, m - 1);
      Distribute(m, 1, inc);
    } else {
      TargetRestarts(start, base, end, inc, m, k - 1);
    }
  }

  /** With a step that divides both the length and the way to the end, the destination is
    itself used as a circular buffer from its base. */
  lemma {:induction false} TargetCircular(start: int, base: int, length: int, inc: int, k: nat)
    requires base <= start < base + length && inc > 0
    requires length % inc == 0 && (base + length - start) % inc == 0
    ensures Target(start, base, base + length, inc, k) == base + Slot(length, start - base, inc, k)
  {
    hide Slot;
    if k == 0 {
      SlotStart(length, start - base, inc);
    } else {
      TargetCircular(start, base, length, inc, k - 1);
      StepReachesEnd(length, start - base, inc, k - 1);
      TargetStep(start, base, length, inc, k);
    }
  }

  lemma TargetStep(start: int, base: int, length: int, inc: int, k: nat)
    requires 0 < k && 0 < inc <= length && Slot(length, start - base, inc, k - 1) + inc <= length
    requires Target(start, base, base + length, inc, k - 1) == base + Slot(length, start - base, inc, k - 1)
    ensures Target(start, base, base + length, inc, k) == base + Slot(length, start - base, inc, k)
  {
    hide Slot;
    SlotNext(length, start - base, inc, k - 1);
  }

  /** A step never jumps over the end. */
  lemma StepReachesEnd(length: int, start: int, inc: int, k: nat)
    requires 0 < length && 0 < inc && length % inc == 0 && (length - start) % inc == 0
    ensures inc <= length && Slot(length, start, inc, k) + inc <= length
  {
    WayIsMultiple(length, start, inc, k);
    hide Slot;
    MultipleAtLeast(length, inc);
    MultipleAtLeast(length - Slot(length, start, inc, k), inc);
  }

  lemma MultipleAtLeast(way: int, inc: int)
    requires 0 < way && 0 < inc && way % inc == 0
    ensures inc <= way
  {
    if way < inc { DivModUnique(way, inc, 0, way); }
  }

  /** From every slot the way to the end stays a multiple of the step. */
  lemma WayIsMultiple(length: int, start: int, inc: int, k: nat)
    requires 0 < length && 0 < inc && length % inc == 0 && (length - start) % inc == 0
    ensures (length - Slot(length, start, inc, k)) % inc == 0
  {
    var n := start + k * inc;
    var p, q := length / inc, (length - start) / inc;
    DivMod(length, inc);
    DivMod(length - start, inc);
    DivMod(n, length);
    var m := q - k + (n / length) * p;
    Associate(n / length, p, inc);
    Distribute(q, k, inc);
    Distribute(q - k, (n / length) * p, inc);
    DivModUnique(length - n % length, inc, m, 0);
  }

  /** A destination position a sample is stored at holds the last one stored there ... */
  lemma {:induction false} LastTargetWins<T>(dst: seq<T>, start: int, base: int, end: int, inc: int,
                                             block: seq<T>, n: nat, k: nat)
    returns (last: nat)
    requires k < n <= |block| && TargetsInside(start, base, end, inc, n, |dst|)
    ensures k <= last < n && Target(start, base, end, inc, last) == Target(start, base, end, inc, k)
    ensures forall j: nat :: last < j < n ==> Target(start, base, end, inc, j) != Target(start, base, end, inc, k)
    ensures Scattered(dst, start, base, end, inc, block, n)[Target(start, base, end, inc, k)] == block[last]
  {
    if Target(start, base, end, inc, n - 1) == Target(start, base, end, inc, k) {
      last := n - 1;
    } else {
      last := LastTargetWins(dst, start, base, end, inc, block, n - 1, k);
    }
  }

  /** ... and all others keep their values. */
  lemma {:induction false} UntargetedKept<T>(dst: seq<T>, start: int, base: int, end: int, inc: int,
                                             block: seq<T>, n: nat, i: nat)
    requires n <= |block| && TargetsInside(start, base, end, inc, n, |dst|) && i < |dst|
    requires forall k: nat :: k < n ==> Target(start, base, end, inc, k) != i
    ensures Scattered(dst, start, base, end, inc, block, n)[i] == dst[i]
  {
    if n > 0 { UntargetedKept(dst, start, base, end, inc, block, n - 1, i); }
  }

  // ---------------------------------------------------------------- reading a block back

  /** Greatest common divisor, by Euclid. */
  function Gcd(a: nat, b: nat): (g: nat)
    requires a > 0
    ensures g > 0
    decreases b
  {
    if b == 0 then a else Gcd(b, a % b)
  }

  /** The divisor divides both numbers and is an integer combination of them. */
  lemma {:induction false} Bezout(a: nat, b: nat) returns (x: int, y: int, p: nat, q: nat)
    requires a > 0
    ensures a == p * Gcd(a, b) && b == q * Gcd(a, b)
    ensures Gcd(a, b) == x * a + y * b
    decreases b
  {
    if b == 0 {
      x, y, p, q := 1, 0, 1, 0;
    } else {
      var t, m := a / b, a % b;
      DivMod(a, b);
      NonNegativeQuotient(a, b);
      var x', y', p', q' := Bezout(b, m);
      MulLe(0, t, p');
      x, y, p, q := y', x' - y' * t, t * p' + q', p';
      BezoutStep(a, b, Gcd(b, m), t, m, x', y', p', q');
    }
  }

  lemma BezoutStep(a: nat, b: nat, g: nat, t: nat, m: nat, x: int, y: int, p: nat, q: nat)
    requires a == t * b + m && b == p * g && m == q * g && g == x * b + y * m
    ensures a == (t * p + q) * g && g == y * a + (x - y * t) * b
  {
    Associate(t, p, g);
    Distribute(t * p, q, g);
    Distribute(t * b, m, y);
    Distribute(x, y * t, b);
    Associate(y, t, b);
  }

  /** How many samples fit before the slots repeat. */
  function Period(length: nat, inc: nat): (p: nat)
    requires length > 0
  {
    length / Gcd(length, inc)
  }

  lemma PeriodCofactor(length: nat, inc: nat, p: nat)
    requires length > 0 && length == p * Gcd(length, inc)
    ensures Period(length, inc) == p > 0
  {
    DivModUnique(length, Gcd(length, inc), p, 0);
  }

  /** d steps lead back to the same slot exactly when d is a multiple of the period. */
  lemma StepsReturnIff(length: nat, inc: nat, d: nat)
    requires length > 0
    ensures Period(length, inc) > 0
    ensures (d * inc) % length == 0 <==> d % Period(length, inc) == 0
  {
    var x, y, p, q := Bezout(length, inc);
    PeriodCofactor(length, inc, p);
    if d % p == 0 { MultipleReturns(length, inc, Gcd(length, inc), p, q, d); }
    if (d * inc) % length == 0 { ReturnIsMultiple(length, inc, Gcd(length, inc), p, x, y, d); }
  }

  lemma MultipleReturns(length: nat, inc: nat, g: nat, p: nat, q: nat, d: nat)
    requires length == p * g && inc == q * g && length > 0 && p > 0 && d % p == 0
    ensures (d * inc) % length == 0
  {
    DivMod(d, p);
    var m := d / p;
    assert d * inc == (m * q) * length by {
      Associate(m, p, inc);
      Associate(q, g, p);
      Associate(q, p, g);
      Associate(m, q, length);
    }
    DivModUnique(d * inc, length, m * q, 0);
  }

  lemma ReturnIsMultiple(length: nat, inc: nat, g: nat, p: nat, x: int, y: int, d: nat)
    requires length == p * g && g == x * length + y * inc && length > 0 && p > 0 && g > 0
    requires (d * inc) % length == 0
    ensures d % p == 0
  {
    DivMod(d * inc, length);
    var t := (d * inc) / length;
    var m := d * x + y * t;
    assert d * g == m * length by {
      Distribute(x * length, y * inc, d);
      Associate(d, x, length);
      Associate(y, d, inc);
      Associate(y, t, length);
      Distribute(d * x, y * t, length);
    }
    assert (d - m * p) * g == 0 by {
      Associate(m, p, g);
      Distribute(d, m * p, g);
    }
    if d != m * p { NonZeroProduct(d - m * p, g); }
    DivModUnique(d, p, m, 0);
  }

  lemma SameSlotIff(length: nat, start: int, inc: nat, j: nat, k: nat)
    requires length > 0 && j <= k
    ensures Period(length, inc) > 0
    ensures Slot(length, start, inc, j) == Slot(length, start, inc, k) <==> (k - j) % Period(length, inc) == 0
  {
    StepsReturnIff(length, inc, k - j);
    Distribute(k, j, inc);
    EqualResiduesIff(start + j * inc, start + k * inc, length);
  }

  ghost predicate RepeatsEvery<T>(block: seq<T>, p: nat)
    requires p > 0
  {
    forall j, k :: 0 <= j < k < |block| && (k - j) % p == 0 ==> block[j] == block[k]
  }

  /** Writing a block and reading it back with the same start and stride returns it exactly
    when samples a whole number of periods apart are equal ... */
  lemma ReadBackIff<T>(buffer: seq<T>, length: nat, start: int, inc: nat, block: seq<T>)
    requires 0 < length <= |buffer|
    ensures Period(length, inc) > 0
    ensures BlockRead(Written(buffer, length, start, inc, block, |block|), length, start, inc, |block|) == block
       <==> RepeatsEvery(block, Period(length, inc))
  {
    SameSlotIff(length, start, inc, 0, 0);
    var after := Written(buffer, length, start, inc, block, |block|);
    var back := BlockRead(after, length, start, inc, |block|);
    if back == block {
      forall j: nat, k: nat | j < k < |block| && (k - j) % Period(length, inc) == 0
        ensures block[j] == block[k]
      {
        SameSlotIff(length, start, inc, j, k);
        assert back[j] == back[k];
      }
    }
    if RepeatsEvery(block, Period(length, inc)) {
      forall k: nat | k < |block| ensures back[k] == block[k] {
        var last := LastSampleWins(buffer, length, start, inc, block, |block|, k);
        SameSlotIff(length, start, inc, k, last);
      }
    }
  }

  /** ... so, with two different sample values u and v to choose from, every block comes back
    exactly when it is no longer than one period. */
  lemma EveryBlockReadBackIff<T(!new)>(buffer: seq<T>, length: nat, start: int, inc: nat, n: nat, u: T, v: T)
    requires 0 < length <= |buffer| && u != v
    ensures n <= length / Gcd(length, inc)
       <==> forall block: seq<T> | |block| == n ::
              BlockRead(Written(buffer, length, start, inc, block, n), length, start, inc, n) == block
  {
    var p := Period(length, inc);
    SameSlotIff(length, start, inc, 0, 0);
    if n <= p {
      forall block: seq<T> | |block| == n
        ensures BlockRead(Written(buffer, length, start, inc, block, n), length, start, inc, n) == block
      {
        forall j, k | 0 <= j < k < |block| ensures (k - j) % p == 0 ==> block[j] == block[k] {
          DivModUnique(k - j, p, 0, k - j);
        }
        ReadBackIff(buffer, length, start, inc, block);
      }
    } else {
      var block := seq(n, i => if i == 0 then u else v);
      ReadBackIff(buffer, length, start, inc, block);
      assert (p - 0) % p == 0 by { DivModUnique(p, p, 1, 0); }
      assert block[0] != block[p];
    }
  }

  // ---------------------------------------------------------------- first in, first out

  datatype Op<T> = WriteBlock(block: seq<T>) | ReadBlock(n: nat)

  /** A buffer, the two stored offsets, and everything written and read so far. */
  datatype Ring<T> = Ring(buffer: seq<T>, writeOffset: int, readOffset: int, written: seq<T>, read: seq<T>)

  function Apply<T>(ring: Ring<T>, length: int, inc: int, op: Op<T>): (after: Ring<T>)
    requires 0 < length <= |ring.buffer|
    ensures |after.buffer| == |ring.buffer|
  {
    match op
    case WriteBlock(block) =>
      ring.(buffer := Written(ring.buffer, length, ring.writeOffset, inc, block, |block|),
            writeOffset := StoredOffset(Slot(length, ring.writeOffset, inc, |block|)),
            written := ring.written + block)
    case ReadBlock(n) =>
      ring.(readOffset := Slot(length, ring.readOffset, inc, n),
            read := ring.read + BlockRead(ring.buffer, length, ring.readOffset, inc, n))
  }

  /** An operation is what the loops do: the buffer and offset of `CircularWrite`, the samples
    and offset of `CircularRead`. */
  lemma ApplyIsLoops<T>(ring: Ring<T>, length: int, inc: int, block: seq<T>, n: nat)
    requires 0 < length <= |ring.buffer| && 0 <= ring.writeOffset < length && 0 <= ring.readOffset < length
    requires 0 <= inc <= length && length + inc <= 0x8000_0000
    ensures OffsetsInside(length, ring.writeOffset, inc, |block|, |ring.buffer|)
    ensures OffsetsInside(length, ring.readOffset, inc, n, |ring.buffer|)
    ensures var after := Apply(ring, length, inc, WriteBlock(block));
            && after.buffer == Stored(ring.buffer, length, ring.writeOffset, inc, block, |block|)
            && after.writeOffset == StoredOffset(Offset(length, ring.writeOffset, inc, |block|))
    ensures var after := Apply(ring, length, inc, ReadBlock(n));
            && after.read == ring.read + Loaded(ring.buffer, length, ring.readOffset, inc, n)
            && after.readOffset == Offset(length, ring.readOffset, inc, n)
  {
    hide Written, Stored, Loaded, BlockRead, Slot, Offset;
    StoredIsWritten(ring.buffer, length, ring.writeOffset, inc, block, |block|);
    LoadedIsBlockRead(ring.buffer, length, ring.readOffset, inc, n);
    OffsetIsSlot(length, ring.writeOffset, inc, |block|);
    OffsetIsSlot(length, ring.readOffset, inc, n);
  }

  function Run<T>(ring: Ring<T>, length: int, inc: int, ops: seq<Op<T>>): (after: Ring<T>)
    requires 0 < length <= |ring.buffer|
    decreases |ops|
  {
    if ops == [] then ring else Run(Apply(ring, length, inc, ops[0]), length, inc, ops[1..])
  }

  /** What a caller has to observe: reads never run ahead of the writes, and at most `capacity`
    samples are outstanding. */
  predicate Disciplined<T>(written: nat, read: nat, capacity: int, ops: seq<Op<T>>)
    decreases |ops|
  {
    ops == [] ||
    (match ops[0]
     case WriteBlock(block) =>
       written + |block| - read <= capacity && Disciplined(written + |block|, read, capacity, ops[1..])
     case ReadBlock(n) =>
       read + n <= written && Disciplined(written, read + n, capacity, ops[1..]))
  }

  /** Everything read by a run that starts from equal offsets is what was written first. */
  ghost predicate ReadsPrefix<T>(buffer: seq<T>, length: int, inc: int, origin: int, ops: seq<Op<T>>)
    requires 0 < length <= |buffer|
  {
    var after := Run(Ring(buffer, origin, origin, [], []), length, inc, ops);
    after.read <= after.written
  }

  /** Every offset that steps from `origin` can reach survives the 16-bit store. */
  ghost predicate OffsetsFit(length: int, inc: int, origin: int)
    requires length > 0
  {
    forall k: nat :: Slot(length, origin, inc, k) < 0x1_0000
  }

  /** The outstanding samples sit in consecutive slots, and what was read is what was written
    first. */
  predicate Fifo<T(==)>(ring: Ring<T>, length: nat, inc: nat, origin: int) {
    && 0 < length <= |ring.buffer|
    && |ring.read| <= |ring.written| <= |ring.read| + Period(length, inc)
    && ring.writeOffset == Slot(length, origin, inc, |ring.written|)
    && ring.readOffset == Slot(length, origin, inc, |ring.read|)
    && (forall i: nat :: |ring.read| <= i < |ring.written| ==>
          ring.buffer[Slot(length, origin, inc, i)] == ring.written[i])
    && ring.read == ring.written[..|ring.read|]
  }

  lemma DistinctSlots(length: nat, start: int, inc: nat, i: nat, j: nat)
    requires 0 < length && i < j < i + Period(length, inc)
    ensures Slot(length, start, inc, i) != Slot(length, start, inc, j)
  {
    SameSlotIff(length, start, inc, i, j);
    DivModUnique(j - i, Period(length, inc), 0, j - i);
  }

  lemma WriteKeepsFifo<T>(ring: Ring<T>, length: nat, inc: nat, origin: int, block: seq<T>)
    requires Fifo(ring, length, inc, origin) && OffsetsFit(length, inc, origin)
    requires |ring.written| + |block| - |ring.read| <= Period(length, inc)
    ensures Fifo(Apply(ring, length, inc, WriteBlock(block)), length, inc, origin)
  {
    var w, n := |ring.written|, |block|;
    SlotFromSlot(length, origin, inc, w, n);
    SlotInside(length, origin, inc, w + n);
    assert StoredOffset(Slot(length, origin, inc, w + n)) == Slot(length, origin, inc, w + n);
    hide Period, Slot, Written, StoredOffset;
    var after := Apply(ring, length, inc, WriteBlock(block));
    forall i: nat | |ring.read| <= i < w + n
      ensures after.buffer[Slot(length, origin, inc, i)] == after.written[i]
    {
      SlotHolds(ring, length, inc, origin, block, i);
    }
    assert after.written[..|ring.read|] == ring.written[..|ring.read|];
  }

  lemma SlotHolds<T>(ring: Ring<T>, length: nat, inc: nat, origin: int, block: seq<T>, i: nat)
    requires Fifo(ring, length, inc, origin) && |ring.read| <= i < |ring.written| + |block|
    requires |ring.written| + |block| - |ring.read| <= Period(length, inc)
    ensures Written(ring.buffer, length, ring.writeOffset, inc, block, |block|)[Slot(length, origin, inc, i)]
         == (ring.written + block)[i]
  {
    var w := |ring.written|;
    if i < w { OutstandingKept(ring, length, inc, origin, block, i); }
    if i >= w { SampleLands(ring, length, inc, origin, block, i - w); }
  }

  lemma SampleLands<T>(ring: Ring<T>, length: nat, inc: nat, origin: int, block: seq<T>, k: nat)
    requires Fifo(ring, length, inc, origin) && k < |block| <= Period(length, inc)
    ensures Written(ring.buffer, length, ring.writeOffset, inc, block, |block|)
              [Slot(length, origin, inc, |ring.written| + k)] == block[k]
  {
    hide Period, Slot, Written;
    SlotFromSlot(length, origin, inc, |ring.written|, k);
    var last := LastSampleWins(ring.buffer, length, ring.writeOffset, inc, block, |block|, k);
    if k < last { DistinctSlots(length, ring.writeOffset, inc, k, last); }
  }

  lemma OutstandingKept<T>(ring: Ring<T>, length: nat, inc: nat, origin: int, block: seq<T>, i: nat)
    requires Fifo(ring, length, inc, origin) && |ring.read| <= i < |ring.written|
    requires |ring.written| + |block| - |ring.read| <= Period(length, inc)
    ensures Written(ring.buffer, length, ring.writeOffset, inc, block, |block|)[Slot(length, origin, inc, i)]
         == ring.written[i]
  {
    hide Period, Slot;
    var w := |ring.written|;
    forall k: nat | k < |block| ensures Slot(length, ring.writeOffset, inc, k) != Slot(length, origin, inc, i) {
      SlotFromSlot(length, origin, inc, w, k);
      DistinctSlots(length, origin, inc, i, w + k);
    }
    UntouchedSlotsKept(ring.buffer, length, ring.writeOffset, inc, block, |block|, Slot(length, origin, inc, i));
  }

  lemma ReadKeepsFifo<T>(ring: Ring<T>, length: nat, inc: nat, origin: int, n: nat)
    requires Fifo(ring, length, inc, origin)
    requires |ring.read| + n <= |ring.written|
    ensures Fifo(Apply(ring, length, inc, ReadBlock(n)), length, inc, origin)
  {
    hide Slot;
    var r := |ring.read|;
    var block := BlockRead(ring.buffer, length, ring.readOffset, inc, n);
    SlotFromSlot(length, origin, inc, r, n);
    forall k: nat | k < n ensures block[k] == ring.written[r + k] {
      SlotFromSlot(length, origin, inc, r, k);
    }
    assert ring.read + block == ring.written[..r + n];
  }

  lemma {:induction false} RunKeepsFifo<T>(ring: Ring<T>, length: nat, inc: nat, origin: int, ops: seq<Op<T>>)
    requires Fifo(ring, length, inc, origin) && OffsetsFit(length, inc, origin)
    requires Disciplined(|ring.written|, |ring.read|, Period(length, inc), ops)
    ensures Fifo(Run(ring, length, inc, ops), length, inc, origin)
    decreases |ops|
  {
    hide Fifo, Period, OffsetsFit;
    if ops != [] {
      FifoShape(ring, length, inc, origin);
      match ops[0] {
        case WriteBlock(block) => WriteKeepsFifo(ring, length, inc, origin, block);
        case ReadBlock(n) => ReadKeepsFifo(ring, length, inc, origin, n);
      }
      RunKeepsFifo(Apply(ring, length, inc, ops[0]), length, inc, origin, ops[1..]);
    }
  }

  lemma FifoShape<T>(ring: Ring<T>, length: nat, inc: nat, origin: int)
    requires Fifo(ring, length, inc, origin)
    ensures 0 < length <= |ring.buffer|
  {
  }

  /** Every disciplined run from equal offsets reads out, in order, a prefix of everything
    that was written, for every stride: the capacity is one period of slots. */
  lemma CircularBufferIsFifo<T>(buffer: seq<T>, length: nat, inc: nat, origin: int, ops: seq<Op<T>>)
    requires 0 <= origin < length <= |buffer| && OffsetsFit(length, inc, origin)
    requires Disciplined(0, 0, Period(length, inc), ops)
    ensures ReadsPrefix(buffer, length, inc, origin, ops)
  {
    SlotStart(length, origin, inc);
    RunKeepsFifo(Ring(buffer, origin, origin, [], []), length, inc, origin, ops);
  }

  lemma RunOfThree<T>(ring: Ring<T>, length: int, inc: int, op0: Op<T>, op1: Op<T>, op2: Op<T>)
    requires 0 < length <= |ring.buffer|
    ensures Run(ring, length, inc, [op0, op1, op2])
         == Apply(Apply(Apply(ring, length, inc, op0), length, inc, op1), length, inc, op2)
  {
    hide Apply;
    var ring1 := Apply(ring, length, inc, op0);
    var ring2 := Apply(ring1, length, inc, op1);
    assert [op0, op1, op2][1..] == [op1, op2] && [op1, op2][1..] == [op2] && [op2][1..] == [];
    assert Run(ring1, length, inc, [op1, op2]) == Run(ring2, length, inc, [op2]);
    assert Run(ring2, length, inc, [op2]) == Run(Apply(ring2, length, inc, op2), length, inc, []);
  }

  lemma DisciplinedOfThree<T>(capacity: int, many: seq<T>, one: seq<T>, n: nat)
    requires |many| + |one| <= capacity && n <= |many| + |one|
    ensures Disciplined(0, 0, capacity, [WriteBlock(many), WriteBlock(one), ReadBlock(n)])
  {
    var op0: Op<T>, op1: Op<T>, op2: Op<T> := WriteBlock(many), WriteBlock(one), ReadBlock(n);
    assert [op0, op1, op2][1..] == [op1, op2] && [op1, op2][1..] == [op2] && [op2][1..] == [];
    assert Disciplined(|many| + |one|, 0, capacity, [op2]);
    assert Disciplined(|many|, 0, capacity, [op1, op2]);
  }

  /** A run that goes wrong when the n-th slot does not survive the store: the sample meant for
    it lands elsewhere, and the read is given what the slot held before. */
  lemma CastBreaksFifo<T>(buffer: seq<T>, length: nat, inc: nat, origin: int, n: nat, u: T, v: T)
    returns (ops: seq<Op<T>>)
    requires 0 <= origin < length <= |buffer| && u != v
    requires n < Period(length, inc) && Slot(length, origin, inc, n) >= 0x1_0000
    ensures Disciplined(0, 0, Period(length, inc), ops) && !ReadsPrefix(buffer, length, inc, origin, ops)
  {
    hide Period, Slot;
    var slot := Slot(length, origin, inc, n);
    var many, one := seq(n, _ => u), [if buffer[slot] == u then v else u];
    ops := [WriteBlock(many), WriteBlock(one), ReadBlock(n + 1)];
    var ring0 := Ring(buffer, origin, origin, [], []);
    SlotInside(length, origin, inc, n);
    var ring1 := Apply(ring0, length, inc, WriteBlock(many));
    forall k: nat | k < n ensures Slot(length, origin, inc, k) != slot { DistinctSlots(length, origin, inc, k, n); }
    UntouchedSlotsKept(buffer, length, origin, inc, many, n, slot);
    var ring2 := Apply(ring1, length, inc, WriteBlock(one));
    WrittenOnce(ring1.buffer, length, slot % 0x1_0000, inc, one);
    assert ring2.buffer[slot] == buffer[slot];
    RunOfThree(ring0, length, inc, WriteBlock(many), WriteBlock(one), ReadBlock(n + 1));
    hide Run;
    var after := Apply(ring2, length, inc, ReadBlock(n + 1));
    assert after.read[n] == buffer[slot] != after.written[n];
    DisciplinedOfThree(Period(length, inc), many, one, n + 1);
  }

  lemma SlotInside(length: nat, start: int, inc: int, k: nat)
    requires length > 0
    ensures 0 <= Slot(length, start, inc, k) < length
  {
  }

  /** From given equal offsets the circular buffer is a FIFO over every disciplined run exactly
    when every offset it can reach survives the 16-bit store. */
  lemma FifoFromIff<T(!new)>(buffer: seq<T>, length: nat, inc: nat, origin: int, u: T, v: T)
    requires 0 <= origin < length <= |buffer| && u != v
    ensures OffsetsFit(length, inc, origin)
       <==> forall ops: seq<Op<T>> | Disciplined(0, 0, Period(length, inc), ops) ::
              ReadsPrefix(buffer, length, inc, origin, ops)
  {
    hide Slot, Period, ReadsPrefix;
    if OffsetsFit(length, inc, origin) {
      forall ops: seq<Op<T>> | Disciplined(0, 0, Period(length, inc), ops)
        ensures ReadsPrefix(buffer, length, inc, origin, ops)
      {
        CircularBufferIsFifo(buffer, length, inc, origin, ops);
      }
    } else {
      var k: nat :| Slot(length, origin, inc, k) >= 0x1_0000;
      var n := FirstVisit(length, origin, inc, k);
      var ops := CastBreaksFifo(buffer, length, inc, origin, n, u, v);
    }
  }

  /** Every slot is reached in the first period. */
  lemma FirstVisit(length: nat, start: int, inc: nat, k: nat) returns (n: nat)
    requires length > 0
    ensures n < Period(length, inc) && Slot(length, start, inc, n) == Slot(length, start, inc, k)
  {
    SameSlotIff(length, start, inc, 0, 0);
    hide Period, Slot;
    var p := Period(length, inc);
    n := k % p;
    DivMod(k, p);
    MulLe(0, k / p, p);
    DivModUnique(k - n, p, k / p, 0);
    SameSlotIff(length, start, inc, n, k);
  }

  /** The capacity cannot be larger: more samples than a period holds overwrite the oldest. */
  lemma CapacityIff<T(!new)>(buffer: seq<T>, length: nat, inc: nat, origin: int, capacity: nat, u: T, v: T)
    requires 0 <= origin < length <= |buffer| && OffsetsFit(length, inc, origin) && u != v
    ensures capacity <= Period(length, inc)
       <==> forall ops: seq<Op<T>> | Disciplined(0, 0, capacity, ops) ::
              ReadsPrefix(buffer, length, inc, origin, ops)
  {
    hide Slot, Period, ReadsPrefix, OffsetsFit;
    if capacity <= Period(length, inc) {
      forall ops: seq<Op<T>> | Disciplined(0, 0, capacity, ops)
        ensures ReadsPrefix(buffer, length, inc, origin, ops)
      {
        DisciplineRelaxes(0, 0, capacity, Period(length, inc), ops);
        CircularBufferIsFifo(buffer, length, inc, origin, ops);
      }
    } else {
      var ops := Overrun(buffer, length, inc, origin, u, v);
      DisciplineRelaxes(0, 0, Period(length, inc) + 1, capacity, ops);
    }
  }

  lemma {:induction false} DisciplineRelaxes<T>(written: nat, read: nat, c: int, c': int, ops: seq<Op<T>>)
    requires c <= c' && Disciplined(written, read, c, ops)
    ensures Disciplined(written, read, c', ops)
    decreases |ops|
  {
    if ops != [] {
      match ops[0] {
        case WriteBlock(block) => DisciplineRelaxes(written + |block|, read, c, c', ops[1..]);
        case ReadBlock(n) => DisciplineRelaxes(written, read + n, c, c', ops[1..]);
      }
    }
  }

  lemma Overrun<T>(buffer: seq<T>, length: nat, inc: nat, origin: int, u: T, v: T) returns (ops: seq<Op<T>>)
    requires 0 <= origin < length <= |buffer| && u != v
    ensures Disciplined(0, 0, Period(length, inc) + 1, ops) && !ReadsPrefix(buffer, length, inc, origin, ops)
  {
    var block := Overlong(buffer, length, inc, origin, u, v);
    hide Period, Slot;
    var none: seq<T>, n := [], |block|;
    ops := [WriteBlock(block), WriteBlock(none), ReadBlock(n)];
    var ring0 := Ring(buffer, origin, origin, [], []);
    RunOfThree(ring0, length, inc, WriteBlock(block), WriteBlock(none), ReadBlock(n));
    DisciplinedOfThree(n, block, none, n);
    hide Run, Written;
    var ring1 := Apply(ring0, length, inc, WriteBlock(block));
    assert ring1.written == block && ring1.read == [];
    var ring2 := Apply(ring1, length, inc, WriteBlock(none));
    WrittenNothing(ring1, length, inc, none);
    hide StoredOffset;
    var after := Apply(ring2, length, inc, ReadBlock(n));
    assert after.read == BlockRead(ring1.buffer, length, origin, inc, n);
    assert after.written[..n] == block;
  }

  lemma Overlong<T>(buffer: seq<T>, length: nat, inc: nat, origin: int, u: T, v: T) returns (block: seq<T>)
    requires 0 < length <= |buffer| && u != v
    ensures |block| == Period(length, inc) + 1
    ensures BlockRead(Written(buffer, length, origin, inc, block, |block|), length, origin, inc, |block|) != block
  {
    SameSlotIff(length, origin, inc, 0, 0);
    hide Period, Slot, Written, BlockRead;
    var p := Period(length, inc);
    block := seq(p + 1, i => if i == 0 then u else v);
    assert (p - 0) % p == 0 by { DivModUnique(p, p, 1, 0); }
    assert block[0] != block[p];
    ReadBackIff(buffer, length, origin, inc, block);
  }

  lemma WrittenNothing<T>(ring: Ring<T>, length: int, inc: int, none: seq<T>)
    requires 0 < length <= |ring.buffer| && |none| == 0
    ensures Apply(ring, length, inc, WriteBlock(none)).buffer == ring.buffer
    ensures Apply(ring, length, inc, WriteBlock(none)).written == ring.written
    ensures Apply(ring, length, inc, WriteBlock(none)).read == ring.read
    ensures Apply(ring, length, inc, WriteBlock(none)).readOffset == ring.readOffset
  {
  }

  /** Over all equal offsets the circular buffer is a FIFO exactly when its length is at most
    2^16, or the stride leads back to the same slot at once. */
  lemma CircularBufferIsFifoIff<T(!new)>(buffer: seq<T>, length: nat, inc: nat, u: T, v: T)
    requires 0 < length <= |buffer| && inc <= length && u != v
    ensures length <= 0x1_0000 || inc == 0 || inc == length
       <==> forall origin, ops: seq<Op<T>> | 0 <= origin < length && origin < 0x1_0000
                                             && Disciplined(0, 0, Period(length, inc), ops) ::
              ReadsPrefix(buffer, length, inc, origin, ops)
  {
    hide Slot, Period, ReadsPrefix, OffsetsFit;
    OffsetCastExactIff(length, inc);
    if length <= 0x1_0000 || inc == 0 || inc == length {
      forall origin, ops: seq<Op<T>> | 0 <= origin < length && origin < 0x1_0000
                                       && Disciplined(0, 0, Period(length, inc), ops)
        ensures ReadsPrefix(buffer, length, inc, origin, ops)
      {
        CircularBufferIsFifo(buffer, length, inc, origin, ops);
      }
    } else {
      var origin :| 0 <= origin < length && origin < 0x1_0000 && !OffsetsFit(length, inc, origin);
      FifoFromIff(buffer, length, inc, origin, u, v);
    }
  }

  /** The 16-bit store of the offset is harmless, from every offset it can hold, exactly for
    those lengths and strides. */
  lemma OffsetCastExactIff(length: nat, inc: nat)
    requires 0 < length && inc <= length
    ensures length <= 0x1_0000 || inc == 0 || inc == length
       <==> forall origin | 0 <= origin < length && origin < 0x1_0000 :: OffsetsFit(length, inc, origin)
  {
    if inc == 0 || inc == length {
      forall origin: int, k: nat | 0 <= origin < length ensures Slot(length, origin, inc, k) == origin {
        DivModUnique(origin + k * inc, length, if inc == 0 then 0 else k, origin);
      }
    } else if length > 0x1_0000 {
      var origin := if 0xFFFF + inc < length then 0xFFFF else length - 1 - inc;
      SlotStart(length, origin, inc);
      SlotNext(length, origin, inc, 0);
      assert Slot(length, origin, inc, 1) >= 0x1_0000;
      assert !OffsetsFit(length, inc, origin);
    }
  }

  /** From offset 0 with stride 1: the second write starts over at slot 0, where the sample the
    read is due still sits. */
  lemma LongBufferIsNotFifo<T>(buffer: seq<T>, length: int, u: T, v: T)
    requires 0x1_0000 < length <= |buffer| && u != v
    ensures var ops := [WriteBlock(seq(0x1_0000, _ => u)), WriteBlock([v]), ReadBlock(1)];
            var after := Run(Ring(buffer, 0, 0, [], []), length, 1, ops);
            Disciplined(0, 0, length, ops) && !(after.read <= after.written)
  {
    var many, one := seq(0x1_0000, _ => u), [v];
    var ring0 := Ring(buffer, 0, 0, [], []);
    var ring1 := Apply(ring0, length, 1, WriteBlock(many));
    DivModUnique(0x1_0000, length, 0, 0x1_0000);
    assert ring1.writeOffset == 0;
    var ring2 := Apply(ring1, length, 1, WriteBlock(one));
    SlotStart(length, 0, 1);
    assert ring2.buffer[0] == v && ring2.written[0] == u by { WrittenOnce(ring1.buffer, length, 0, 1, one); }
    var ring3 := Apply(ring2, length, 1, ReadBlock(1));
    assert ring3.read == [v];
    RunOfThree(ring0, length, 1, WriteBlock(many), WriteBlock(one), ReadBlock(1));
    hide Apply, Written, BlockRead;
    DisciplinedOfThree<T>(length, many, one, 1);
  }

  lemma WrittenOnce<T>(buffer: seq<T>, length: int, start: int, inc: int, block: seq<T>)
    requires 0 <= start < length <= |buffer| && |block| == 1
    ensures Written(buffer, length, start, inc, block, 1) == buffer[start := block[0]]
  {
    SlotStart(length, start, inc);
    assert Written(buffer, length, start, inc, block, 0) == buffer;
  }

  /** With stride 1 the capacity is the length. */
  lemma UnitPeriod(length: nat)
    requires length > 0
    ensures Period(length, 1) == length
  {
    assert Gcd(length, 1) == Gcd(1, 0) == 1;
  }
}
