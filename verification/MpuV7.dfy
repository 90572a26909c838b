/** The Armv7-M table loader of mpu_armv7.h. Here every alias pair is the plain pair again, and
  a base address with its VALID bit set selects the region itself. */
module MpuV7 {
  import opened FixedPoint

  /** One row of a configuration table. */
  datatype Row = Row(rbar: u32, rasr: u32)

  /** What a region holds: the base address without the selection fields, and the attributes. */
  datatype Region = Region(base: u32, rasr: u32)

  /** The region number register and the regions. */
  datatype Unit = Unit(rnr: nat, regions: seq<Region>) {
    predicate Valid() { rnr < |regions| }
  }

  // ---------------------------------------------------------------- register fields

  /** `rbar & MPU_RBAR_ADDR_Msk` */
  function BaseOf(rbar: u32): u32 { rbar - rbar % 0x20 }

  predicate IsValid(rbar: u32) { (rbar / 0x10) % 2 == 1 }

  /** `rbar & MPU_RBAR_REGION_Msk` */
  function RegionOf(rbar: u32): nat { rbar % 0x10 }

  /** `ARM_MPU_RBAR`: base, region and the VALID bit occupy disjoint bits. */
  function Rbar(region: u32, base: u32): u32 {
    (base - base % 0x20) + region % 0x10 + 0x10
  }

  lemma RbarFields(region: u32, base: u32)
    ensures var rbar := Rbar(region, base);
            && (rbar / 0x10) % 2 == 1 && rbar % 0x10 == region % 0x10
            && rbar - rbar % 0x20 == base - base % 0x20
  {
  }

  // ---------------------------------------------------------------- register writes

  /** The region a base address write goes to. */
  function TargetOf(u: Unit, rbar: u32): nat {
    if IsValid(rbar) then RegionOf(rbar) else u.rnr
  }

  function WriteRbar(u: Unit, rbar: u32): (after: Unit)
    requires TargetOf(u, rbar) < |u.regions|
    ensures after.Valid() && |after.regions| == |u.regions|
  {
    var r := TargetOf(u, rbar);
    Unit(r, u.regions[r := u.regions[r].(base := BaseOf(rbar))])
  }

  function WriteRasr(u: Unit, rasr: u32): (after: Unit)
    requires u.Valid()
    ensures after.Valid() && |after.regions| == |u.regions|
  {
    u.(regions := u.regions[u.rnr := u.regions[u.rnr].(rasr := rasr)])
  }

  /** A row that selects a region selects an implemented one. */
  predicate RowImplemented(row: Row, size: nat) {
    IsValid(row.rbar) ==> RegionOf(row.rbar) < size
  }

  predicate Implemented(table: seq<Row>, size: nat) {
    forall i :: 0 <= i < |table| ==> RowImplemented(table[i], size)
  }

  function SetRow(u: Unit, row: Row): (after: Unit)
    requires u.Valid() && RowImplemented(row, |u.regions|)
    ensures after.Valid() && |after.regions| == |u.regions|
  {
    WriteRasr(WriteRbar(u, row.rbar), row.rasr)
  }

  /** `ARM_MPU_SetRegion` for each of the first n rows. */
  function SetRows(u: Unit, table: seq<Row>, n: nat): (after: Unit)
    requires u.Valid() && Implemented(table, |u.regions|) && n <= |table|
    ensures after.Valid() && |after.regions| == |u.regions|
  {
    if n == 0 then u else SetRow(SetRows(u, table, n - 1), table[n - 1])
  }

  /** A row whose base address has bit 4, VALID, set goes to the region in its low four bits and
    selects it; any other goes to the region that is selected. */
  lemma SetRowIs(u: Unit, row: Row)
    requires u.Valid() && RowImplemented(row, |u.regions|)
    ensures var written := Region(row.rbar - row.rbar % 0x20, row.rasr);
            SetRow(u, row) == if (row.rbar / 0x10) % 2 == 1
                              then Unit(row.rbar % 0x10, u.regions[row.rbar % 0x10 := written])
                              else Unit(u.rnr, u.regions[u.rnr := written])
  {
  }

  /** The region row i goes to: that of the last row up to it with VALID set. */
  function GoesTo(rnr: nat, table: seq<Row>, i: nat): nat
    requires i < |table|
  {
    if (table[i].rbar / 0x10) % 2 == 1 then table[i].rbar % 0x10
    else if i == 0 then rnr
    else GoesTo(rnr, table, i - 1)
  }

  /** The last of the first n rows that goes to region k, or -1. */
  function LastTo(rnr: nat, table: seq<Row>, n: nat, k: nat): (i: int)
    requires n <= |table|
    ensures -1 <= i < n
    ensures i >= 0 ==> GoesTo(rnr, table, i) == k
    ensures forall j: nat :: i < j < n ==> GoesTo(rnr, table, j) != k
  {
    if n == 0 then -1 else if GoesTo(rnr, table, n - 1) == k then n - 1 else LastTo(rnr, table, n - 1, k)
  }

  /** Each region ends up with the last row that goes to it and the others are unchanged,
    whether or not the rows carry a region number; the last row's region stays selected. */
  lemma {:induction false} SetRowsPointwise(u: Unit, table: seq<Row>, n: nat, k: nat)
    requires u.Valid() && Implemented(table, |u.regions|) && n <= |table| && k < |u.regions|
    ensures SetRows(u, table, n).rnr == if n == 0 then u.rnr else GoesTo(u.rnr, table, n - 1)
    ensures var i := LastTo(u.rnr, table, n, k);
            SetRows(u, table, n).regions[k]
              == if i >= 0 then Region(table[i].rbar - table[i].rbar % 0x20, table[i].rasr) else u.regions[k]
  {
    if n > 0 {
      SetRowsPointwise(u, table, n - 1, k);
      SetRowIs(SetRows(u, table, n - 1), table[n - 1]);
      hide SetRow;
    }
  }

  /** Rows as `ARM_MPU_RBAR` builds them go to the region they name, whatever RNR was. */
  lemma BuiltRowsNameRegion(rnr: nat, table: seq<Row>, i: nat, region: u32, base: u32)
    requires i < |table| && table[i].rbar == Rbar(region, base)
    ensures GoesTo(rnr, table, i) == region % 0x10
    ensures table[i].rbar - table[i].rbar % 0x20 == base - base % 0x20
  {
    RbarFields(region, base);
    hide Rbar;
  }

  /** Loading the next c rows continues the load of the rows before them. */
  lemma {:induction false} SetRowsContinue(u: Unit, table: seq<Row>, done: nat, c: nat)
    requires u.Valid() && done + c <= |table| && Implemented(table, |u.regions|)
    ensures Implemented(table[done..], |u.regions|)
    ensures SetRows(SetRows(u, table, done), table[done..], c) == SetRows(u, table, done + c)
  {
    assert forall i :: 0 <= i < |table| - done ==> table[done..][i] == table[done + i];
    hide SetRow, RowImplemented;
    if c > 0 { SetRowsContinue(u, table, done, c - 1); }
  }

  /** A table as the words in memory. */
  function WordAt(table: seq<Row>, i: nat): u32
    requires i < 2 * |table|
  {
    if i % 2 == 0 then table[i / 2].rbar else table[i / 2].rasr
  }

  /** The unit after the first n words of a table have been stored into the window. */
  function StoreWords(u: Unit, table: seq<Row>, n: nat): (after: Unit)
    requires u.Valid() && Implemented(table, |u.regions|) && n <= 2 * |table|
    ensures after.Valid() && |after.regions| == |u.regions|
  {
    if n == 0 then u
    else
      var before := StoreWords(u, table, n - 1);
      if n % 2 == 1 then
        assert RowImplemented(table[(n - 1) / 2], |u.regions|);
        WriteRbar(before, WordAt(table, n - 1))
      else WriteRasr(before, WordAt(table, n - 1))
  }

  /** Storing all words of some rows is setting those rows one by one. */
  lemma {:induction false} StoreWordsSetRows(u: Unit, table: seq<Row>, rows: nat)
    requires u.Valid() && Implemented(table, |u.regions|) && rows <= |table|
    ensures StoreWords(u, table, 2 * rows) == SetRows(u, table, rows)
  {
    if rows > 0 {
      hide StoreWords, SetRow;
      StoreWordsSetRows(u, table, rows - 1);
      TwoWords(u, table, rows - 1, 2 * (rows - 1));
    }
  }

  lemma TwoWords(u: Unit, table: seq<Row>, row: nat, n: nat)
    requires u.Valid() && Implemented(table, |u.regions|) && row < |table| && n == 2 * row
    ensures StoreWords(u, table, n + 2) == SetRow(StoreWords(u, table, n), table[row])
  {
    assert WordAt(table, n) == table[row].rbar && WordAt(table, n + 1) == table[row].rasr;
    assert RowImplemented(table[row], |u.regions|);
    assert StoreWords(u, table, n + 1) == WriteRbar(StoreWords(u, table, n), table[row].rbar);
    hide WriteRbar, WriteRasr, BaseOf, RegionOf, IsValid;
  }

  // ---------------------------------------------------------------- the unit

  /** The register window of `MPU_Type`: `ALIASES` pairs that all act like the first. */
  class Mpu {
    const ALIASES: nat
    var rnr: nat
    var regions: seq<Region>

    ghost predicate Valid()
      reads this
    {
      ALIASES > 0 && rnr < |regions|
    }

    ghost function State(): (u: Unit)
      requires Valid()
      reads this
      ensures u.Valid()
    {
      Unit(rnr, regions)
    }

    constructor (aliases: nat, initial: seq<Region>)
      requires aliases > 0 && |initial| > 0
      ensures Valid() && ALIASES == aliases && State() == Unit(0, initial)
    {
      ALIASES, rnr, regions := aliases, 0, initial;
    }

    method StoreRbar(pair: nat, rbar: u32)
      requires Valid() && pair < ALIASES && TargetOf(State(), rbar) < |regions|
      modifies this
      ensures Valid() && State() == WriteRbar(old(State()), rbar)
    {
      if IsValid(rbar) {
        rnr := RegionOf(rbar);
      }
      regions := regions[rnr := regions[rnr].(base := BaseOf(rbar))];
    }

    method StoreRasr(pair: nat, rasr: u32)
      requires Valid() && pair < ALIASES
      modifies this`regions
      ensures Valid() && State() == WriteRasr(old(State()), rasr)
    {
      regions := regions[rnr := regions[rnr].(rasr := rasr)];
    }

    /** `ARM_MPU_SetRegion` */
    method SetRegion(row: Row)
      requires Valid() && RowImplemented(row, |regions|)
      modifies this
      ensures Valid() && State() == SetRow(old(State()), row)
    {
      StoreRbar(0, row.rbar);
      StoreRasr(0, row.rasr);
    }

    /** A store to a word of the window: even words are base addresses, odd ones attributes,
      and every pair reaches the same two registers. */
    method Store(word: nat, value: u32)
      requires Valid() && word < 2 * ALIASES
      requires word % 2 == 0 ==> TargetOf(State(), value) < |regions|
      modifies this
      ensures Valid()
      ensures State() == if word % 2 == 0 then WriteRbar(old(State()), value) else WriteRasr(old(State()), value)
    {
      if word % 2 == 0 {
        StoreRbar(word / 2, value);
      } else {
        StoreRasr(word / 2, value);
      }
    }

    /** `ARM_MPU_OrderedMemcpy` from a table to the window, word by word. */
    method OrderedMemcpy(table: seq<Row>, len: nat)
      requires Valid() && len <= 2 * |table| && len <= 2 * ALIASES && Implemented(table, |regions|)
      modifies this
      ensures Valid() && |regions| == old(|regions|)
      ensures State() == StoreWords(old(State()), table, len)
    {
      ghost var before := State();
      for i := 0 to len
        invariant Valid() && |regions| == |before.regions| && State() == StoreWords(before, table, i)
      {
        assert RowImplemented(table[i / 2], |regions|);
        Store(i, WordAt(table, i));
      }
    }

    /** One `ARM_MPU_OrderedMemcpy` call of the loader. */
    method CopyRows(t: seq<Row>, rows: nat)
      requires Valid() && rows <= |t| && rows <= ALIASES && Implemented(t, |regions|)
      modifies this
      ensures Valid() && |regions| == old(|regions|) && State() == SetRows(old(State()), t, rows)
    {
      StoreWordsSetRows(State(), t, rows);
      hide SetRows, StoreWords, Implemented;
      OrderedMemcpy(t, rows * 2);
    }

    /** `ARM_MPU_Load` */
    method Load(table: seq<Row>)
      requires Valid() && Implemented(table, |regions|)
      modifies this
      ensures Valid() && |regions| == old(|regions|) && State() == SetRows(old(State()), table, |table|)
    {
      ghost var before := State();
      var t := table;
      var cnt := |table|;
      ghost var done := 0;
      while cnt > ALIASES
        invariant Valid() && |regions| == |before.regions|
        invariant 0 <= done && 0 <= cnt && done + cnt == |table| && t == table[done..]
        invariant State() == SetRows(before, table, done)
        decreases cnt
      {
        SetRowsContinue(before, table, done, ALIASES);
        CopyRows(t, ALIASES);
        t := t[ALIASES..];
        cnt := cnt - ALIASES;
        done := done + ALIASES;
      }
      SetRowsContinue(before, table, done, cnt);
      CopyRows(t, cnt);
    }
  }
}
