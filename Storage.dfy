/// `Storage<T>`: a fixed-capacity circular log of fixed-size records in EEPROM.
///
/// The EEPROM is an array of record slots: slot `j` is the record stored at byte
/// address `j * recordSize`, and `EEPROM.length()` is `eeprom.Length * recordSize`
/// bytes. The class keeps the source's byte addresses (`size`, `startAddr`,
/// `addr`). Records are opaque values of `T` compared with `==`.
module Storage {
  import opened Console

  /** The record `EEPROM.get` yields for slot `j`. Past the end of the medium
      the EEPROM interface says nothing; that value is `pastEnd`. */
  function ReadSlot<T>(cells: seq<T>, j: nat, pastEnd: T): T
  {
    if j < |cells| then cells[j] else pastEnd
  }

  /** Where the recovery scan stops, as a slot index. Starting at slot `from` it
      reads slots while the index is at most `last` and stops at the first one
      holding `def`; `last + 1` when none does. */
  function ScanEnd<T(==)>(cells: seq<T>, def: T, from: nat, last: nat, pastEnd: T): (r: nat)
    ensures from <= r
    ensures from <= last + 1 ==> r <= last + 1
    ensures forall j :: from <= j < r ==> ReadSlot(cells, j, pastEnd) != def
    ensures r <= last ==> ReadSlot(cells, r, pastEnd) == def
    decreases last + 1 - from
  {
    if from > last then from
    else if ReadSlot(cells, from, pastEnd) == def then from
    else ScanEnd(cells, def, from + 1, last, pastEnd)
  }

  /** The medium after `EEPROM.put` of `d` into slot `j`; a slot the medium does
      not have receives nothing. */
  function Stored<T>(cells: seq<T>, j: nat, d: T): (r: seq<T>)
    ensures |r| == |cells|
    ensures j < |cells| ==> r[j] == d
    ensures forall i :: 0 <= i < |cells| && i != j ==> r[i] == cells[i]
  {
    if j < |cells| then cells[j := d] else cells
  }

  /** The medium after `def` has been put, slot after slot, into slots
      `lo .. hi - 1`. */
  function Cleared<T>(cells: seq<T>, def: T, lo: nat, hi: nat): (r: seq<T>)
    ensures |r| == |cells|
    ensures forall j :: lo <= j < hi && j < |cells| ==> r[j] == def
    ensures forall j :: 0 <= j < |cells| && !(lo <= j < hi) ==> r[j] == cells[j]
    decreases hi
  {
    if hi <= lo then cells else Stored(Cleared(cells, def, lo, hi - 1), hi - 1, def)
  }

  /** The working address after a write at `addr`: one record on, or back to
      `start` once the end of the area `start + size` is reached. */
  function Advance(addr: nat, start: nat, size: nat, recordSize: nat): (next: nat)
    ensures start <= addr < start + size ==> start <= next < start + size
    ensures next == start || next == addr + recordSize
    ensures next != start ==> next < start + size
    ensures addr + recordSize < start + size ==> next == addr + recordSize
    ensures addr + recordSize >= start + size ==> next == start
  {
    if addr + recordSize >= start + size then start else addr + recordSize
  }

  /** Multiplying by a record size keeps the order of slot indices. */
  lemma {:induction false} MulMonotone(a: nat, b: nat, recordSize: nat)
    requires a <= b
    ensures a * recordSize <= b * recordSize
    decreases b - a
  {
    if a < b {
      MulMonotone(a, b - 1, recordSize);
      assert (b - 1) * recordSize + recordSize == b * recordSize;
    }
  }

  /** Quotient and remainder are the only ones of their kind. */
  lemma DivModUnique(x: nat, q: nat, m: nat, d: nat)
    requires 0 <= m < d && x == q * d + m
    ensures x / d == q && x % d == m
  {
    var q', m' := x / d, x % d;
    assert x == q' * d + m' && 0 <= m' < d;
    if q' < q {
      MulMonotone(q' + 1, q, d);
      assert false;
    } else if q' > q {
      MulMonotone(q + 1, q', d);
      assert false;
    }
  }

  /** Slot `k` begins at byte address `k * recordSize`. */
  lemma SlotAddress(k: nat, recordSize: nat)
    requires recordSize > 0
    ensures (k * recordSize) / recordSize == k
    ensures (k * recordSize) % recordSize == 0
  {
    DivModUnique(k * recordSize, k, 0, recordSize);
  }

  /** A record-aligned address is the address of its slot. */
  lemma AlignedAddress(a: nat, recordSize: nat)
    requires recordSize > 0 && a % recordSize == 0
    ensures a == (a / recordSize) * recordSize
  {
  }

  /** The next slot begins one record further on. */
  lemma NextAddress(k: nat, recordSize: nat)
    ensures (k + 1) * recordSize == k * recordSize + recordSize
  {
  }

  /** Slot addresses are ordered as their slot indices are. */
  lemma AddressOrder(j: nat, k: nat, recordSize: nat)
    requires recordSize > 0
    ensures j <= k <==> j * recordSize <= k * recordSize
  {
    if j <= k {
      MulMonotone(j, k, recordSize);
    } else {
      MulMonotone(k + 1, j, recordSize);
    }
  }

  /** Storage area of `n` records of type `T`. */
  class Storage<T(==)> {
    /** `sizeof(T)`: bytes per record. */
    const recordSize: nat
    /** Size of storage area, in bytes. */
    const size: nat
    /** First address in storage area. */
    const startAddr: nat
    /** Current working address. */
    var addr: nat
    /** Default data value: marks a slot that holds no record. */
    const defVal: T

    /** The cursor is record-aligned and at most one record past the address
        `size`, the furthest the recovery scan can carry it. */
    ghost predicate Valid()
      reads this
    {
      recordSize > 0 && startAddr == 0 &&
      size % recordSize == 0 && addr % recordSize == 0 &&
      addr <= size + recordSize
    }

    /** Room for `n` records with default value `def`; no storage is touched. */
    constructor (n: nat, def: T, sizeOfT: nat)
      requires sizeOfT > 0
      ensures Valid()
      ensures recordSize == sizeOfT && size == n * sizeOfT
      ensures startAddr == 0 && addr == startAddr && defVal == def
    {
      recordSize := sizeOfT;
      size := n * sizeOfT;
      startAddr := 0;
      addr := 0;
      defVal := def;
      SlotAddress(n, sizeOfT);
    }

    /** Recovery scan: read forward one record at a time while `addr <= size`,
        stopping at the first slot that holds `defVal`. Only reads storage. */
    method ScanForCursor(eeprom: array<T>, pastEnd: T)
      requires Valid()
      modifies this`addr
      ensures Valid()
      ensures addr == ScanEnd(eeprom[..], defVal, old(addr) / recordSize, size / recordSize, pastEnd) * recordSize
    {
      ghost var n := size / recordSize;
      AlignedAddress(size, recordSize);
      AlignedAddress(addr, recordSize);
      ghost var from := addr / recordSize;
      AddressOrder(from, n + 1, recordSize);
      ghost var k := from;
      while addr <= size
        invariant addr == k * recordSize && from <= k <= n + 1
        invariant ScanEnd(eeprom[..], defVal, k, n, pastEnd) == ScanEnd(eeprom[..], defVal, from, n, pastEnd)
        decreases n + 1 - k
      {
        AddressOrder(k, n, recordSize);
        SlotAddress(k, recordSize);
        var data := ReadSlot(eeprom[..], addr / recordSize, pastEnd);
        if defVal == data {
          break;
        }
        NextAddress(k, recordSize);
        addr := addr + recordSize;
        k := k + 1;
      }
      AddressOrder(k, n, recordSize);
      AddressOrder(k, n + 1, recordSize);
      NextAddress(n, recordSize);
      SlotAddress(k, recordSize);
      assert ScanEnd(eeprom[..], defVal, k, n, pastEnd) == k;
    }

    /** Clear: put `defVal` into every slot from `startAddr` below `size`, then
        move the working address back to `startAddr`. */
    method ClearArea(eeprom: array<T>)
      requires Valid() && size <= eeprom.Length * recordSize
      modifies this`addr, eeprom
      ensures Valid() && addr == startAddr
      ensures eeprom[..] == Cleared(old(eeprom[..]), defVal, startAddr / recordSize, size / recordSize)
    {
      ghost var n := size / recordSize;
      AlignedAddress(size, recordSize);
      AddressOrder(n, eeprom.Length, recordSize);
      var i := startAddr;
      ghost var k := 0;
      while i < size
        invariant i == k * recordSize && k <= n
        invariant eeprom[..] == Cleared(old(eeprom[..]), defVal, 0, k)
        decreases n - k
      {
        AddressOrder(n, k, recordSize);
        SlotAddress(k, recordSize);
        eeprom[i / recordSize] := defVal;
        NextAddress(k, recordSize);
        i := i + recordSize;
        k := k + 1;
      }
      AddressOrder(n, k, recordSize);
      addr := startAddr;
    }

    /** `init`: refuse an area larger than the EEPROM; recover the working
        address by the scan; if data was found, ask whether to clear it, and on
        'y' clear it. Every outcome past the size check is a success. */
    method Init(eeprom: array<T>, pastEnd: T, serial: SerialPort) returns (ok: bool)
      requires Valid()
      modifies this`addr, eeprom, serial
      ensures Valid()
      ensures ok <==> size <= eeprom.Length * recordSize
      ensures !ok ==> addr == old(addr) && eeprom[..] == old(eeprom[..]) && unchanged(serial)
      ensures ok ==>
        var found := ScanEnd(old(eeprom[..]), defVal, old(addr) / recordSize, size / recordSize, pastEnd) * recordSize;
        if found == startAddr then
          addr == startAddr && eeprom[..] == old(eeprom[..]) && unchanged(serial)
        else if Answer(old(serial.rx), serial.arrivals, old(serial.clock)) == 'y' then
          addr == startAddr &&
          eeprom[..] == Cleared(old(eeprom[..]), defVal, startAddr / recordSize, size / recordSize)
        else
          addr == found && eeprom[..] == old(eeprom[..])
      ensures ok ==>
        var found := ScanEnd(old(eeprom[..]), defVal, old(addr) / recordSize, size / recordSize, pastEnd) * recordSize;
        found != startAddr ==>
          old(serial.clock) <= serial.clock <= old(serial.clock) + CHECKS &&
          (Received(old(serial.rx), serial.arrivals, old(serial.clock), CHECKS - 1) != [] ==> serial.rx == [])
    {
      if size > eeprom.Length * recordSize {
        return false;
      }
      ScanForCursor(eeprom, pastEnd);
      if startAddr != addr {
        var ans := AskToClear(serial);
        if 'y' == ans {
          ClearArea(eeprom);
        }
      }
      return true;
    }

    /** `write`: put `data` at the working address, then advance it by one
        record, wrapping to `startAddr` at the end of the area. */
    method Write(eeprom: array<T>, data: T)
      requires Valid()
      modifies this`addr, eeprom
      ensures Valid()
      ensures eeprom[..] == Stored(old(eeprom[..]), old(addr) / recordSize, data)
      ensures addr == Advance(old(addr), startAddr, size, recordSize)
    {
      AlignedAddress(addr, recordSize);
      ghost var k := addr / recordSize;
      if addr / recordSize < eeprom.Length {
        eeprom[addr / recordSize] := data;
      }
      addr := addr + recordSize;
      SlotAddress(k + 1, recordSize);
      if addr >= startAddr + size {
        addr := startAddr;
      }
    }
  }
}
