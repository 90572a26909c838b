/** The Armv8-M table loader of mpu_armv8.h and the memory protection unit it programs. */
module MpuV8 {
  import opened FixedPoint
  import opened ByteLanes

  /** One row of a configuration table, or one region of the unit. */
  datatype Region = Region(rbar: u32, rlar: u32)

  // ---------------------------------------------------------------- what a load means

  /** The regions after rows have been assigned one after the other, from region `rnr` up. */
  function SetRegions(regions: seq<Region>, rnr: nat, table: seq<Region>): (after: seq<Region>)
    requires rnr + |table| <= |regions|
    ensures |after| == |regions|
    decreases |table|
  {
    if table == [] then regions else SetRegions(regions[rnr := table[0]], rnr + 1, table[1..])
  }

  /** Region rnr + i holds row i, every other region is unchanged. */
  lemma {:induction false} SetRegionsPointwise(regions: seq<Region>, rnr: nat, table: seq<Region>, k: nat)
    requires rnr + |table| <= |regions| && k < |regions|
    ensures SetRegions(regions, rnr, table)[k] == if rnr <= k < rnr + |table| then table[k - rnr] else regions[k]
    decreases |table|
  {
    if table != [] { SetRegionsPointwise(regions[rnr := table[0]], rnr + 1, table[1..], k); }
  }

  /** Loading a table is loading its two halves one after the other. */
  lemma {:induction false} SetRegionsSplit(regions: seq<Region>, rnr: nat, first: seq<Region>, second: seq<Region>)
    requires rnr + |first| + |second| <= |regions|
    ensures SetRegions(regions, rnr, first + second)
         == SetRegions(SetRegions(regions, rnr, first), rnr + |first|, second)
    decreases |first|
  {
    if first == [] {
      assert [] + second == second;
    } else {
      assert (first + second)[1..] == first[1..] + second;
      SetRegionsSplit(regions[rnr := first[0]], rnr + 1, first[1..], second);
    }
  }

  /** Loads of disjoint ranges can be exchanged. */
  lemma SetRegionsCommute(regions: seq<Region>, r1: nat, t1: seq<Region>, r2: nat, t2: seq<Region>)
    requires r1 + |t1| <= r2 && r2 + |t2| <= |regions|
    ensures SetRegions(SetRegions(regions, r1, t1), r2, t2) == SetRegions(SetRegions(regions, r2, t2), r1, t1)
  {
    var a, b := SetRegions(SetRegions(regions, r1, t1), r2, t2), SetRegions(SetRegions(regions, r2, t2), r1, t1);
    forall k: nat | k < |regions| ensures a[k] == b[k] {
      SetRegionsPointwise(regions, r1, t1, k);
      SetRegionsPointwise(SetRegions(regions, r1, t1), r2, t2, k);
      SetRegionsPointwise(regions, r2, t2, k);
      SetRegionsPointwise(SetRegions(regions, r2, t2), r1, t1, k);
    }
  }

  // ---------------------------------------------------------------- the register words

  /** A table as the words in memory: RBAR then RLAR of each row. */
  function WordAt(table: seq<Region>, i: nat): u32
    requires i < 2 * |table|
  {
    if i % 2 == 0 then table[i / 2].rbar else table[i / 2].rlar
  }

  /** The region a word of the register window belongs to: the plain pair addresses the
    region selected by RNR, alias n the n-th region of the group of four RNR lies in. */
  function Selected(rnr: nat, word: nat): nat {
    if word < 2 then rnr else rnr - rnr % 4 + word / 2
  }

  function StoreWord(regions: seq<Region>, rnr: nat, word: nat, value: u32): (after: seq<Region>)
    requires Selected(rnr, word) < |regions|
    ensures |after| == |regions|
  {
    var r := Selected(rnr, word);
    if word % 2 == 0 then regions[r := regions[r].(rbar := value)] else regions[r := regions[r].(rlar := value)]
  }

  /** Every word from `word` on, n of them, belongs to an implemented region. */
  predicate Implemented(size: nat, rnr: nat, word: nat, n: nat) {
    forall w: nat :: word <= w < word + n ==> Selected(rnr, w) < size
  }

  /** The regions after the first n words of a table have been stored from `word` on. */
  function StoreWords(regions: seq<Region>, rnr: nat, word: nat, table: seq<Region>, n: nat): (after: seq<Region>)
    requires n <= 2 * |table| && Implemented(|regions|, rnr, word, n)
    ensures |after| == |regions|
  {
    if n == 0 then regions
    else StoreWord(StoreWords(regions, rnr, word, table, n - 1), rnr, word + (n - 1), WordAt(table, n - 1))
  }

  /** `rnr % MPU_TYPE_RALIASES`: which alias of its group reaches the region. */
  function GroupOffset(rnr: nat, aliases: nat): (offset: nat)
    requires aliases == 1 || aliases == 4
    ensures offset <= rnr && offset < aliases
  {
    rnr % aliases
  }

  lemma GroupStart(rnr: nat, aliases: nat)
    requires aliases == 1 || aliases == 4
    ensures GroupOffset(rnr - GroupOffset(rnr, aliases), aliases) == 0
    ensures GroupOffset(rnr, aliases) == 0 ==> GroupOffset(rnr + aliases, aliases) == 0
  {
  }

  /** Region r is the one alias pair `pair` reaches. Without alignment only the plain pair is
    predictable. */
  predicate Reaches(rnr: nat, pair: nat, r: nat) {
    (rnr % 4 == 0 || pair == 0) && r == rnr + pair
  }

  lemma SelectedRow(rnr: nat, pair: nat, r: nat)
    requires Reaches(rnr, pair, r)
    ensures Selected(rnr, 2 * pair) == r && Selected(rnr, 2 * pair + 1) == r
  {
  }

  lemma StoreRow(regions: seq<Region>, rnr: nat, pair: nat, r: nat, row: Region)
    requires Reaches(rnr, pair, r) && r < |regions|
    ensures Selected(rnr, 2 * pair) < |regions| && Selected(rnr, 2 * pair + 1) < |regions|
    ensures StoreWord(StoreWord(regions, rnr, 2 * pair, row.rbar), rnr, 2 * pair + 1, row.rlar) == regions[r := row]
  {
    SelectedRow(rnr, pair, r);
  }

  lemma WindowImplemented(size: nat, rnr: nat, first: nat, rows: nat)
    requires rnr % 4 == 0 || first + rows <= 1
    requires rnr + first + rows <= size
    ensures Implemented(size, rnr, 2 * first, 2 * rows)
  {
    forall w: nat | 2 * first <= w < 2 * first + 2 * rows ensures Selected(rnr, w) < size {
      SelectedRow(rnr, w / 2, rnr + w / 2);
    }
  }

  /** Storing all words of the rows into the window sets as many consecutive regions, provided
    RNR is the start of a group or only the plain pair is written. */
  lemma {:induction false} StoreWordsSetRegions(regions: seq<Region>, rnr: nat, first: nat,
                                                      table: seq<Region>, rows: nat)
    requires rows <= |table| && rnr + first + rows <= |regions|
    requires rnr % 4 == 0 || first + rows <= 1
    ensures Implemented(|regions|, rnr, 2 * first, 2 * rows)
    ensures StoreWords(regions, rnr, 2 * first, table, 2 * rows) == SetRegions(regions, rnr + first, table[..rows])
  {
    hide StoreWord, WordAt, Selected, Implemented;
    WindowImplemented(|regions|, rnr, first, rows);
    if rows > 0 {
      StoreWordsSetRegions(regions, rnr, first, table, rows - 1);
      var before := SetRegions(regions, rnr + first, table[..rows - 1]);
      StoreRow(before, rnr, first + rows - 1, rnr + first + rows - 1, table[rows - 1]);
      TwoWords(regions, rnr, 2 * first, table, rows - 1, 2 * (rows - 1));
      SetRegionsAppend(regions, rnr + first, table[..rows - 1], table[rows - 1]);
      assert table[..rows] == table[..rows - 1] + [table[rows - 1]];
    }
  }

  lemma TwoWords(regions: seq<Region>, rnr: nat, word: nat, table: seq<Region>, row: nat, n: nat)
    requires row < |table| && n == 2 * row && Implemented(|regions|, rnr, word, n + 2)
    ensures Implemented(|regions|, rnr, word, n)
    ensures Selected(rnr, word + n) < |regions| && Selected(rnr, word + n + 1) < |regions|
    ensures StoreWords(regions, rnr, word, table, n + 2)
         == StoreWord(StoreWord(StoreWords(regions, rnr, word, table, n), rnr, word + n, table[row].rbar),
                      rnr, word + n + 1, table[row].rlar)
  {
    hide StoreWord, WordAt, Selected, StoreWords;
    WordsOfRow(table, row);
    StoreWordsStep(regions, rnr, word, table, n);
    StoreWordsStep(regions, rnr, word, table, n + 1);
  }

  lemma WordsOfRow(table: seq<Region>, row: nat)
    requires row < |table|
    ensures WordAt(table, 2 * row) == table[row].rbar && WordAt(table, 2 * row + 1) == table[row].rlar
  {
  }

  lemma StoreWordsStep(regions: seq<Region>, rnr: nat, word: nat, table: seq<Region>, n: nat)
    requires n < 2 * |table| && Implemented(|regions|, rnr, word, n + 1)
    ensures StoreWords(regions, rnr, word, table, n + 1)
         == StoreWord(StoreWords(regions, rnr, word, table, n), rnr, word + n, WordAt(table, n))
  {
  }

  lemma SetRegionsAppend(regions: seq<Region>, rnr: nat, table: seq<Region>, row: Region)
    requires rnr + |table| < |regions|
    ensures SetRegions(regions, rnr, table + [row]) == SetRegions(regions, rnr, table)[rnr + |table| := row]
  {
    SetRegionsSplit(regions, rnr, table, [row]);
    assert [row][1..] == [];
  }

  // ---------------------------------------------------------------- the unit

  /** The registers of `MPU_Type` that the loader touches. `ALIASES` is MPU_TYPE_RALIASES of
    the core header: 4 on the mainline profile, 1 on the baseline profile. */
  class Mpu {
    const ALIASES: nat
    var rnr: nat
    var regions: seq<Region>

    ghost predicate Valid()
      reads this
    {
      (ALIASES == 1 || ALIASES == 4) && |regions| <= 0x100
    }

    constructor (aliases: nat, initial: seq<Region>)
      requires (aliases == 1 || aliases == 4) && |initial| <= 0x100
      ensures Valid() && ALIASES == aliases && regions == initial && rnr == 0
    {
      ALIASES, regions, rnr := aliases, initial, 0;
    }

    /** A store to a word of the window that starts at RBAR. There are two words an alias, and
      nothing beyond them may be written. */
    method Store(word: nat, value: u32)
      requires Valid() && word < 2 * ALIASES && Selected(rnr, word) < |regions|
      modifies this`regions
      ensures Valid() && regions == StoreWord(old(regions), rnr, word, value)
    {
      var r := Selected(rnr, word);
      if word % 2 == 0 {
        regions := regions[r := regions[r].(rbar := value)];
      } else {
        regions := regions[r := regions[r].(rlar := value)];
      }
    }

    /** `ARM_MPU_SetRegionEx` */
    method SetRegionEx(number: nat, rbar: u32, rlar: u32)
      requires Valid() && number < |regions|
      modifies this
      ensures Valid() && rnr == number
      ensures regions == SetRegions(old(regions), number, [Region(rbar, rlar)])
    {
      rnr := number;
      Store(0, rbar);
      Store(1, rlar);
    }

    /** `ARM_MPU_OrderedMemcpy` with a register destination, `word` words after RBAR. */
    method OrderedMemcpy(word: nat, table: seq<Region>, len: nat)
      requires Valid() && len <= 2 * |table| && word + len <= 2 * ALIASES
      requires Implemented(|regions|, rnr, word, len)
      modifies this`regions
      ensures Valid() && regions == StoreWords(old(regions), rnr, word, table, len)
    {
      ghost var before := regions;
      for i := 0 to len
        invariant Valid() && regions == StoreWords(before, rnr, word, table, i)
      {
        Store(word + i, WordAt(table, i));
      }
    }

    /** One `ARM_MPU_OrderedMemcpy` call of the loader: `rows` rows into the aliases from
      `offset` on. */
    method CopyRows(offset: nat, t: seq<Region>, rows: nat)
      requires Valid() && (GroupOffset(rnr, ALIASES) == 0 || offset + rows <= 1) && offset + rows <= ALIASES
      requires rows <= |t| && rnr + offset + rows <= |regions|
      modifies this`regions
      ensures Valid() && regions == SetRegions(old(regions), rnr + offset, t[..rows])
    {
      hide StoreWords, SetRegions, Implemented, Selected;
      StoreWordsSetRegions(regions, rnr, offset, t, rows);
      OrderedMemcpy(offset * 2, t, rows * 2);
    }

    /** `ARM_MPU_LoadEx`. Every store stays inside the window, whatever the table length. */
    method LoadEx(number: nat, table: seq<Region>)
      requires Valid() && number + |table| <= |regions|
      modifies this
      ensures Valid() && regions == SetRegions(old(regions), number, table)
      ensures rnr == SelectedLast(ALIASES, number, |table|)
    {
      hide SetRegions, GroupOffset;
      ghost var before := regions;
      GroupStart(number, ALIASES);
      SetRegionsNothing(before, number, table[..0]);
      var cnt := |table|;
      var t := table;
      if cnt == 1 {
        rnr := number;
        CopyRows(0, t, 1);
        assert t[..1] == table;
      } else {
        var rnrOffset := GroupOffset(number, ALIASES);
        var rnrBase := number - rnrOffset;
        rnr := rnrBase;
        ghost var done := 0;
        while rnrOffset + cnt > ALIASES
          invariant Valid() && |regions| == |before|
          invariant 0 <= done && 0 <= cnt && done + cnt == |table| && t == table[done..]
          invariant done > 0 ==> cnt > 0
          invariant rnr == rnrBase && GroupOffset(rnrBase, ALIASES) == 0 && 0 <= rnrOffset < ALIASES
          invariant rnrBase + rnrOffset == number + done
          invariant regions == SetRegions(before, number, table[..done])
          decreases cnt
        {
          var c := ALIASES - rnrOffset;
          CopyRows(rnrOffset, t, c);
          JoinRows(before, number, table, done, c);
          t := t[c..];
          cnt := cnt - c;
          done := done + c;
          rnrOffset := 0;
          GroupStart(rnrBase, ALIASES);
          rnrBase := rnrBase + ALIASES;
          rnr := rnrBase;
        }
        CopyRows(rnrOffset, t, cnt);
        JoinRows(before, number, table, done, cnt);
        LastGroup(ALIASES, number, |table|, rnr);
        assert table[..done + cnt] == table;
      }
    }
  }

  /** The region number the loader leaves selected: the only region of a table of one row, and
    otherwise the first of the group the last row lies in. */
  function SelectedLast(aliases: nat, number: nat, rows: nat): nat
    requires aliases == 1 || aliases == 4
  {
    var last := if rows == 0 then number else number + rows - 1;
    if rows == 1 then number else last - last % aliases
  }

  lemma LastGroup(aliases: nat, number: nat, rows: nat, base: nat)
    requires (aliases == 1 || aliases == 4) && rows != 1 && GroupOffset(base, aliases) == 0
    requires rows == 0 ==> base <= number < base + aliases
    requires rows > 0 ==> base < number + rows <= base + aliases
    ensures base == SelectedLast(aliases, number, rows)
  {
  }

  lemma SetRegionsNothing(regions: seq<Region>, rnr: nat, table: seq<Region>)
    requires rnr + |table| <= |regions| && table == []
    ensures SetRegions(regions, rnr, table) == regions
  {
  }

  lemma JoinRows(regions: seq<Region>, rnr: nat, table: seq<Region>, done: nat, c: nat)
    requires rnr + |table| <= |regions| && done + c <= |table|
    ensures SetRegions(SetRegions(regions, rnr, table[..done]), rnr + done, table[done..][..c])
         == SetRegions(regions, rnr, table[..done + c])
  {
    SetRegionsSplit(regions, rnr, table[..done], table[done..][..c]);
    assert table[..done] + table[done..][..c] == table[..done + c];
  }

  // ---------------------------------------------------------------- memory attributes

  /** The attribute with index idx of the two attribute indirection registers. */
  function Attribute(mair: seq<u32>, idx: nat): u8
    requires |mair| == 2 && idx < 8
  {
    Lane(mair[idx / 4], idx % 4)
  }

  /** Four attributes to a register, the lowest byte first. */
  lemma AttributeIsByte(mair: seq<u32>, idx: nat)
    requires |mair| == 2 && idx < 8
    ensures Attribute(mair, idx) == (mair[idx / 4] / Pow2(8 * (idx % 4))) % 0x100
  {
    LaneIsByte(mair[idx / 4], idx % 4);
  }

  /** `ARM_MPU_SetMemAttrEx`: the named attribute is replaced, all others are kept, and an
    index beyond the registers changes nothing. */
  method SetMemAttrEx(mair: array<u32>, idx: u8, attr: u8)
    requires mair.Length == 2
    modifies mair
    ensures forall k: nat :: k < 8 ==> Attribute(mair[..], k) == if k == idx then attr else Attribute(old(mair[..]), k)
    ensures idx >= 8 ==> mair[..] == old(mair[..])
    ensures idx < 8 ==>
              && ReplacesByte(old(mair[idx / 4]), mair[idx / 4], idx % 4, attr)
              && mair[1 - idx / 4] == old(mair[1 - idx / 4])
  {
    var reg := idx / 4;
    var pos := idx % 4;
    if reg >= mair.Length {
      return;
    }
    forall k: nat | k < 4
      ensures Lane(WithLane(mair[reg], pos, attr), k) == if k == pos then attr else Lane(mair[reg], k)
    {
      LaneOfWithLane(mair[reg], pos, attr, k);
    }
    ReplacesByteHolds(mair[reg], pos, attr);
    hide Lane, WithLane, ReplacesByte;
    mair[reg] := WithLane(mair[reg], pos, attr);
  }
}
