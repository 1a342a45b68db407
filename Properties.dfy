/// Properties of the storage log that relate several operations: runs of
/// writes, recovery of the working address after them, wrap-around, clearing,
/// and where the recovery scan as written leaves the working address.
///
/// Throughout, the area starts at address 0 (`startAddr` is always 0), holds
/// `size / recordSize` records, and `size` is a whole number of records.
module StorageProperties {
  import opened Console
  import opened Storage

  /** The medium and the working address together. */
  datatype Snapshot<T> = Snapshot(cells: seq<T>, addr: nat)

  /** One `write` of `d`: what `Storage.Write` promises for the medium and the
      working address. */
  function AfterWrite<T>(s: Snapshot<T>, d: T, size: nat, recordSize: nat): Snapshot<T>
    requires recordSize > 0
  {
    Snapshot(Stored(s.cells, s.addr / recordSize, d), Advance(s.addr, 0, size, recordSize))
  }

  /** The writes of `ds`, first to last. */
  function Replay<T>(s: Snapshot<T>, ds: seq<T>, size: nat, recordSize: nat): Snapshot<T>
    requires recordSize > 0
    decreases |ds|
  {
    if ds == [] then s else Replay(AfterWrite(s, ds[0], size, recordSize), ds[1..], size, recordSize)
  }

  /** Writing `a` and then `b` is writing `a + b`. */
  lemma {:induction false} ReplayAppend<T>(s: Snapshot<T>, a: seq<T>, b: seq<T>, size: nat, recordSize: nat)
    requires recordSize > 0
    ensures Replay(s, a + b, size, recordSize) == Replay(Replay(s, a, size, recordSize), b, size, recordSize)
    decreases |a|
  {
    if a != [] {
      var s' := AfterWrite(s, a[0], size, recordSize);
      assert (a + b)[0] == a[0] && (a + b)[1..] == a[1..] + b;
      assert Replay(s, a + b, size, recordSize) == Replay(s', a[1..] + b, size, recordSize);
      assert Replay(s, a, size, recordSize) == Replay(s', a[1..], size, recordSize);
      ReplayAppend(s', a[1..], b, size, recordSize);
    } else {
      assert a + b == b;
    }
  }

  /** Up to one lap of writes from slot `k`: record `i` lands in slot `k + i`,
      the cursor moves on one record per write, and it is back at the start of
      the area exactly when the last slot has been written. */
  lemma {:induction false} WritesInOrder<T>(s: Snapshot<T>, ds: seq<T>, size: nat, recordSize: nat, k: nat)
    requires recordSize > 0 && size % recordSize == 0
    requires s.addr == k * recordSize && k < size / recordSize && k + |ds| <= size / recordSize
    ensures var t := Replay(s, ds, size, recordSize);
            |t.cells| == |s.cells| &&
            t.addr == (if k + |ds| == size / recordSize then 0 else (k + |ds|) * recordSize) &&
            forall j :: 0 <= j < |s.cells| ==>
              t.cells[j] == if k <= j < k + |ds| then ds[j - k] else s.cells[j]
    decreases |ds|
  {
    if ds != [] {
      var n := size / recordSize;
      AlignedAddress(size, recordSize);
      SlotAddress(k, recordSize);
      NextAddress(k, recordSize);
      AddressOrder(n, k + 1, recordSize);
      var s' := AfterWrite(s, ds[0], size, recordSize);
      if k + 1 == n {
        assert s'.addr == 0 && Replay(s', ds[1..], size, recordSize) == s';
      } else {
        assert s'.addr == (k + 1) * recordSize;
        WritesInOrder(s', ds[1..], size, recordSize, k + 1);
      }
    }
  }

  /** Recovery after writes: from a cleared area, `N` writes of records other
      than the default value, fewer than the area holds, leave the working
      address at `N * recordSize`, and the recovery scan of a freshly
      constructed store (cursor at the start) finds exactly that address. */
  lemma RecoverAfterWrites<T>(cells: seq<T>, def: T, ds: seq<T>, size: nat, recordSize: nat, pastEnd: T)
    requires recordSize > 0 && size % recordSize == 0 && size / recordSize <= |cells|
    requires |ds| < size / recordSize
    requires forall i :: 0 <= i < |ds| ==> ds[i] != def
    ensures var t := Replay(Snapshot(Cleared(cells, def, 0, size / recordSize), 0), ds, size, recordSize);
            t.addr == |ds| * recordSize &&
            ScanEnd(t.cells, def, 0, size / recordSize, pastEnd) * recordSize == t.addr
  {
    var n := size / recordSize;
    var s := Snapshot(Cleared(cells, def, 0, n), 0);
    WritesInOrder(s, ds, size, recordSize, 0);
    var t := Replay(s, ds, size, recordSize);
    var e := ScanEnd(t.cells, def, 0, n, pastEnd);
    assert ReadSlot(t.cells, |ds|, pastEnd) == def;
  }

  /** Moving on one slot, with the wrap, and then `m` more is moving on
      `m + 1` slots modulo `n`. */
  lemma SlotStep(k: nat, m: nat, n: nat)
    requires k < n
    ensures ((if k + 1 == n then 0 else k + 1) + m) % n == (k + 1 + m) % n
  {
    if k + 1 == n {
      DivModUnique(n + m, m / n + 1, m % n, n);
    }
  }

  /** The cursor after any number of writes from slot `k`: slot `(k + N) mod n`
      of an area of `n` records. */
  lemma {:induction false} CursorAfterWrites<T>(s: Snapshot<T>, ds: seq<T>, size: nat, recordSize: nat, k: nat)
    requires recordSize > 0 && size % recordSize == 0
    requires s.addr == k * recordSize && k < size / recordSize
    ensures Replay(s, ds, size, recordSize).addr == ((k + |ds|) % (size / recordSize)) * recordSize
    decreases |ds|
  {
    var n := size / recordSize;
    if ds == [] {
      DivModUnique(k, 0, k, n);
    } else {
      AlignedAddress(size, recordSize);
      SlotAddress(k, recordSize);
      NextAddress(k, recordSize);
      AddressOrder(n, k + 1, recordSize);
      var s' := AfterWrite(s, ds[0], size, recordSize);
      var k' := if k + 1 == n then 0 else k + 1;
      assert s'.addr == k' * recordSize;
      assert Replay(s, ds, size, recordSize) == Replay(s', ds[1..], size, recordSize);
      CursorAfterWrites(s', ds[1..], size, recordSize, k');
      SlotStep(k, |ds| - 1, n);
    }
  }

  /** Wrap-around overwrites the oldest records: from the start of an area of
      `n` records, `n + m` writes (`m <= n`) leave the newest `m` records in
      slots `0 .. m - 1` and records `m .. n - 1` of the first lap in the rest. */
  lemma WrapOverwritesOldest<T>(cells: seq<T>, ds: seq<T>, size: nat, recordSize: nat)
    requires recordSize > 0 && size % recordSize == 0 && 0 < size / recordSize <= |cells|
    requires size / recordSize <= |ds| <= 2 * (size / recordSize)
    ensures var n := size / recordSize;
            var t := Replay(Snapshot(cells, 0), ds, size, recordSize);
            |t.cells| == |cells| &&
            forall j :: 0 <= j < n ==> t.cells[j] == if j < |ds| - n then ds[n + j] else ds[j]
  {
    var n := size / recordSize;
    var s := Snapshot(cells, 0);
    assert ds == ds[..n] + ds[n..];
    ReplayAppend(s, ds[..n], ds[n..], size, recordSize);
    WritesInOrder(s, ds[..n], size, recordSize, 0);
    var mid := Replay(s, ds[..n], size, recordSize);
    if |ds| > n {
      WritesInOrder(mid, ds[n..], size, recordSize, 0);
    }
  }

  /** Clearing twice leaves the medium as clearing once. */
  lemma ClearIdempotent<T>(cells: seq<T>, def: T, lo: nat, hi: nat)
    ensures Cleared(Cleared(cells, def, lo, hi), def, lo, hi) == Cleared(cells, def, lo, hi)
  {
    var once := Cleared(cells, def, lo, hi);
    var twice := Cleared(once, def, lo, hi);
    assert forall j :: 0 <= j < |once| ==> twice[j] == once[j];
  }

  /** After a clear, the recovery scan stops at once: no data is found, so a
      following `init` neither prompts nor moves the working address. */
  lemma ClearedAreaHoldsNoData<T>(cells: seq<T>, def: T, n: nat, pastEnd: T)
    requires 0 < n <= |cells|
    ensures ScanEnd(Cleared(cells, def, 0, n), def, 0, n, pastEnd) == 0
  {
    assert ReadSlot(Cleared(cells, def, 0, n), 0, pastEnd) == def;
  }

  /** The recovery scan as written: when every slot of the area holds a
      record, it reads on past the area and leaves the working address at
      `size` or `size + recordSize`, outside the area, so the next write puts its
      record there and leaves every slot of the area as it was. */
  lemma FullAreaScanPassesEnd<T>(cells: seq<T>, def: T, size: nat, recordSize: nat, pastEnd: T, d: T)
    requires recordSize > 0 && size % recordSize == 0
    requires forall j :: 0 <= j < size / recordSize ==> ReadSlot(cells, j, pastEnd) != def
    ensures var found := ScanEnd(cells, def, 0, size / recordSize, pastEnd);
            var t := AfterWrite(Snapshot(cells, found * recordSize), d, size, recordSize);
            (found * recordSize == size || found * recordSize == size + recordSize) &&
            forall j :: 0 <= j < size / recordSize && j < |cells| ==> t.cells[j] == cells[j]
  {
    var n := size / recordSize;
    var found := ScanEnd(cells, def, 0, n, pastEnd);
    AlignedAddress(size, recordSize);
    SlotAddress(found, recordSize);
    NextAddress(n, recordSize);
  }

  /** One instance: an area of one 4-byte record holding 7, with 8 and 9 in the
      two slots after it and default value 0. The scan stops at address 8, and
      the next write of 5 lands in slot 2, two records past the area. */
  lemma ScanPastEndExample()
    ensures ScanEnd([7, 8, 9], 0, 0, 4 / 4, 0) == 2
    ensures AfterWrite(Snapshot([7, 8, 9], 2 * 4), 5, 4, 4) == Snapshot([7, 8, 5], 0)
  {
  }

  /** Recovery as evidently intended: scan only the slots of the area
      (`addr < startAddr + size`) and, when every one holds a record, resume
      at `startAddr` (slot 0, the base address of the area) instead of past
      the area. */
  function RecoveredSlot<T(==)>(cells: seq<T>, def: T, from: nat, n: nat, pastEnd: T): (k: nat)
    requires from < n
    ensures k < n
    ensures (exists j :: from <= j < n && ReadSlot(cells, j, pastEnd) == def) ==>
              from <= k && ReadSlot(cells, k, pastEnd) == def &&
              forall j :: from <= j < k ==> ReadSlot(cells, j, pastEnd) != def
    ensures (forall j :: from <= j < n ==> ReadSlot(cells, j, pastEnd) != def) ==> k == 0
  {
    var e := ScanEnd(cells, def, from, n - 1, pastEnd);
    if e == n then 0 else e
  }

  /** Writes from any cursor inside the area stay inside it: the cursor stays
      record-aligned and below `size`, and no slot past the area changes. */
  lemma {:induction false} WritesStayInArea<T>(s: Snapshot<T>, ds: seq<T>, size: nat, recordSize: nat)
    requires recordSize > 0 && size % recordSize == 0
    requires s.addr % recordSize == 0 && s.addr < size
    ensures var t := Replay(s, ds, size, recordSize);
            t.addr % recordSize == 0 && t.addr < size && |t.cells| == |s.cells| &&
            forall j :: size / recordSize <= j < |s.cells| ==> t.cells[j] == s.cells[j]
    decreases |ds|
  {
    if ds != [] {
      var n := size / recordSize;
      var k := s.addr / recordSize;
      AlignedAddress(s.addr, recordSize);
      AlignedAddress(size, recordSize);
      AddressOrder(n, k, recordSize);
      NextAddress(k, recordSize);
      SlotAddress(k + 1, recordSize);
      var s' := AfterWrite(s, ds[0], size, recordSize);
      assert k < n && s'.cells == Stored(s.cells, k, ds[0]);
      assert s'.addr == 0 || s'.addr == (k + 1) * recordSize;
      WritesStayInArea(s', ds[1..], size, recordSize);
    }
  }

  /** With the intended recovery, no write after `init` ever touches a slot
      past the area, whatever the medium held. */
  lemma RecoveredWritesStayInArea<T>(cells: seq<T>, def: T, ds: seq<T>, size: nat, recordSize: nat, pastEnd: T)
    requires recordSize > 0 && size % recordSize == 0 && size > 0
    ensures var k := RecoveredSlot(cells, def, 0, size / recordSize, pastEnd);
            var t := Replay(Snapshot(cells, k * recordSize), ds, size, recordSize);
            |t.cells| == |cells| &&
            forall j :: size / recordSize <= j < |cells| ==> t.cells[j] == cells[j]
  {
    var n := size / recordSize;
    AlignedAddress(size, recordSize);
    var k := RecoveredSlot(cells, def, 0, n, pastEnd);
    SlotAddress(k, recordSize);
    AddressOrder(n, k, recordSize);
    WritesStayInArea(Snapshot(cells, k * recordSize), ds, size, recordSize);
  }

  /** The end-to-end scenario of a four-record store with default value 0:
      after writing 1 and 2 into the cleared area, recovery finds slot 2;
      three more writes, 3, 4 and 5, wrap once and leave [5, 2, 3, 4] with the
      cursor at slot 1. */
  lemma FourRecordScenario(pastEnd: int)
    ensures var cleared := Cleared([9, 9, 9, 9], 0, 0, 4);
            var first := Replay(Snapshot(cleared, 0), [1, 2], 16, 4);
            var found := ScanEnd(first.cells, 0, 0, 4, pastEnd);
            var last := Replay(Snapshot(first.cells, found * 4), [3, 4, 5], 16, 4);
            found == 2 && last == Snapshot([5, 2, 3, 4], 4)
  {
    var cleared := Cleared([9, 9, 9, 9], 0, 0, 4);
    RecoverAfterWrites([9, 9, 9, 9], 0, [1, 2], 16, 4, pastEnd);
    var first := Replay(Snapshot(cleared, 0), [1, 2], 16, 4);
    WritesInOrder(Snapshot(cleared, 0), [1, 2], 16, 4, 0);
    assert first.cells == [1, 2, 0, 0];
    var s := Snapshot(first.cells, 2 * 4);
    assert [3, 4, 5] == [3, 4] + [5];
    ReplayAppend(s, [3, 4], [5], 16, 4);
    WritesInOrder(s, [3, 4], 16, 4, 2);
    var mid := Replay(s, [3, 4], 16, 4);
    assert mid == Snapshot([1, 2, 3, 4], 0);
    WritesInOrder(mid, [5], 16, 4, 0);
  }

  /** A client that logs a run of records through the class, one `write` per
      record: the medium and the working address end as `Replay` of the run
      says, so the lemmas about `Replay` hold of real runs of `write`. */
  method WriteAll<T(==)>(log: Storage<T>, eeprom: array<T>, ds: seq<T>)
    requires log.Valid()
    modifies log`addr, eeprom
    ensures log.Valid()
    ensures Snapshot(eeprom[..], log.addr) ==
            Replay(Snapshot(old(eeprom[..]), old(log.addr)), ds, log.size, log.recordSize)
  {
    ghost var s0 := Snapshot(eeprom[..], log.addr);
    var i := 0;
    while i < |ds|
      invariant 0 <= i <= |ds| && log.Valid()
      invariant Snapshot(eeprom[..], log.addr) == Replay(s0, ds[..i], log.size, log.recordSize)
    {
      ghost var before := Snapshot(eeprom[..], log.addr);
      log.Write(eeprom, ds[i]);
      assert Snapshot(eeprom[..], log.addr) == Replay(before, [ds[i]], log.size, log.recordSize);
      ReplayAppend(s0, ds[..i], [ds[i]], log.size, log.recordSize);
      assert ds[..i + 1] == ds[..i] + [ds[i]];
      i := i + 1;
    }
    assert ds[..|ds|] == ds;
  }

  /** A client of the class, first boot: a four-record log of 4-byte records
      over a four-slot EEPROM full of old data. `init` finds the data, the
      answer "Y" clears it, and two writes follow. */
  method FirstBootScenario() returns (eeprom: array<int>)
    ensures eeprom[..] == [1, 2, 0, 0]
  {
    eeprom := new int[4](_ => 9);
    var console := new SerialPort(['Y', '\n'], []);
    var log := new Storage<int>(4, 0, 4);
    assert eeprom[..] == [9, 9, 9, 9];
    assert ScanEnd([9, 9, 9, 9], 0, 0, 4, 0) == 4;
    assert Answer(['Y', '\n'], [], 0) == 'y';
    assert Cleared([9, 9, 9, 9], 0, 0, 4) == [0, 0, 0, 0];
    var ok := log.Init(eeprom, 0, console);
    assert ok && log.addr == 0 && eeprom[..] == [0, 0, 0, 0] && console.rx == [];
    log.Write(eeprom, 1);
    assert eeprom[..] == [1, 0, 0, 0] && log.addr == 4;
    log.Write(eeprom, 2);
  }

  /** Second boot, on what the first left: a fresh store recovers the cursor
      at the third record, nobody answers the prompt, and three more writes
      wrap once. */
  method SecondBootScenario(eeprom: array<int>)
    requires eeprom[..] == [1, 2, 0, 0]
    modifies eeprom
    ensures eeprom[..] == [5, 2, 3, 4]
  {
    var log := new Storage<int>(4, 0, 4);
    var quiet := new SerialPort([], []);
    assert ScanEnd([1, 2, 0, 0], 0, 0, 4, 0) == 2;
    TimeoutAnswersNo([], [], 0);
    var ok := log.Init(eeprom, 0, quiet);
    assert ok && log.addr == 8 && eeprom[..] == [1, 2, 0, 0];
    log.Write(eeprom, 3);
    assert eeprom[..] == [1, 2, 3, 0] && log.addr == 12;
    log.Write(eeprom, 4);
    assert eeprom[..] == [1, 2, 3, 4] && log.addr == 0;
    log.Write(eeprom, 5);
    assert log.addr == 4;
  }
}
