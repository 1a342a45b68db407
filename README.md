# Storage: a circular log of fixed-size records in EEPROM

This project models `Storage<T>`, the persistence layer of an Arduino
temperature monitor. The log keeps fixed-size records of type `T` in a
contiguous area of the EEPROM. A default value (`defVal`) marks a slot that
holds no record, and a working address (`addr`) says where the next record
goes. `init` recovers that address after a power cycle by scanning for the
first slot that holds the default value. If it finds data, it asks on the
serial console whether to clear the log. `write` stores a record and moves
the address on, wrapping to the start of the area at its end.

Files:

- `Console.dfy` (module `Console`): the serial receive side as a class
  (`SerialPort`), C `tolower`, and the bounded yes/no poll of `init`
  (`AskToClear`) proved against a loop-free statement of its answer (`Answer`).
- `Storage.dfy` (module `Storage`): the class `Storage<T>` with the fields of
  `Storage.h` (`size`, `startAddr`, `addr`, `defVal`, plus `recordSize` for
  `sizeof(T)`). It has the constructor, `Init`, its three steps
  (`ScanForCursor`, `ClearArea`, and the prompt from `Console`), and `Write`.
  Beside the class are the functions each method is proved against: `ScanEnd`,
  `Cleared`, `Stored` and `Advance`.
- `Properties.dfy` (module `StorageProperties`): lemmas over runs of writes
  (`Replay`): recovery after writes, the cursor modulo the area, wrap-around,
  clear idempotence, and the finding below. Client methods drive the class
  through runs of writes, a clear, a power cycle and a wrap, using only its
  contracts.

How the model is laid out:

- The EEPROM is an `array<T>` of record slots. Slot `j` is the record at byte
  address `j * recordSize`, and `EEPROM.length()` is `eeprom.Length *
  recordSize`. The source reaches the EEPROM as a global. Here it is passed to
  `Init` and `Write`.
- Reading a slot the medium does not have gives the value `pastEnd`, a
  parameter of `Init`, because the EEPROM interface does not define that
  read. Storing into such a slot changes nothing.
- The serial line is `SerialPort`. `rx` holds the characters received and not
  yet read. `arrivals[t]` is what arrives during the `t`-th one-second delay.
  `clock` counts the delays.

Where the code differs from the usual description of such a log, the model
follows the code:

- The scan runs while `addr <= size` (Storage.cpp:61). It therefore reads the
  slot at address `size`, one past the area. When no slot of the area holds
  the default value, the scan leaves `addr` at `size` or at
  `size + recordSize`, not at the end of the area.
- The scan starts from the current `addr`, not from `startAddr`. After
  construction the two are equal.
- The scan bound and the clear bound are `size`, not `startAddr + size`. This
  is harmless because `startAddr` is always 0.
- The poll pre-increments its counter and compares it with `MAX_TRIES` (5)
  before each check (Storage.cpp:81). So only 4 input checks happen. The fourth
  delay is waited out but never checked, and a reply that arrives during it
  stays in the receive buffer (`Console.LateReplyIgnored`).
- `init` reports success as `bool`, as the code does, not as a result type.

## Model

| member | source | states |
|---|---|---|
| `Console.ToLower` | Storage.cpp:89 | the answer character is never upper case; an upper-case letter becomes the matching lower-case letter, anything else is kept |
| `Console.SerialPort.Drain` | Storage.cpp:91-95 | consuming the remaining input leaves nothing buffered |
| `Console.AskToClear` | Storage.cpp:79-101 | the poll always terminates after at most 4 delays; its answer is `Answer`: the lower-cased first character received before the last check, or `'n'` when nothing arrives; after an answer, all buffered input is consumed; on timeout, exactly 4 delays pass and the buffer holds whatever arrived |
| `Console.FirstReplyDecides` | Storage.cpp:81-97 | if input is first present at check `k < 4`, the answer is that input's first character, lower-cased |
| `Console.TimeoutAnswersNo` | Storage.cpp:81-85 | with nothing pending and nothing arriving before the last check, the answer defaults to `'n'` |
| `Console.ClearChosenIff` | Storage.cpp:89-106 | the clear is chosen exactly when the first character received in time is `'y'` or `'Y'` |
| `Console.LateReplyIgnored` | Storage.cpp:81-100 | a `'y'` that arrives only during the fourth delay is never checked: the answer is `'n'` and the `'y'` stays buffered |
| `Storage.ScanEnd` | Storage.cpp:61-72 | the scan stops at the first slot from its start, up to the slot at address `size`, that holds the default value; every slot it passed holds something else; it stops one slot past that bound when none does |
| `Storage.Cleared` | Storage.cpp:109-117 | after the clear loop, every slot of the area holds the default value and every other slot is unchanged |
| `Storage.Stored` | Storage.cpp:141 | a put changes only the slot written, which then holds the record |
| `Storage.Advance` | Storage.cpp:142-146 | the next working address is one record on while that is still inside the area, and `startAddr` exactly when one record on reaches or passes the end of the area; an address inside the area stays inside it |
| `Storage.Storage.constructor` | Storage.cpp:22-29 | `size` is `n * sizeof(T)` bytes, `startAddr` is 0, `addr` equals `startAddr`, and `defVal` is the given default; no storage is touched |
| `Storage.Storage.ScanForCursor` | Storage.cpp:61-72 | the scan only reads storage and leaves `addr` at the address of `ScanEnd` from the old `addr`, one record past `size` at most |
| `Storage.Storage.ClearArea` | Storage.cpp:109-118 | the medium becomes `Cleared` (every area slot holds `defVal`, nothing else changes) and `addr` is `startAddr` |
| `Storage.Storage.Init` | Storage.cpp:42-128 | `init` returns false exactly when `size` exceeds the EEPROM length (equal passes), and then changes nothing; otherwise it returns true. If the scan finds no data, there is no prompt, no storage write, and `addr` is `startAddr`. On `'y'` the area is cleared and `addr` is `startAddr`. On any other answer or a timeout, storage is unchanged and `addr` keeps the scanned value |
| `Storage.Storage.Write` | Storage.cpp:137-147 | `write` stores the record in the slot at the old `addr`, changes no other slot, and moves `addr` on by `Advance` |
| `StorageProperties.ReplayAppend` | Storage.cpp:139-147 | writing one run of records and then another is writing their concatenation |
| `StorageProperties.WritesInOrder` | Storage.cpp:139-147 | up to one lap of writes from slot `k` puts record `i` into slot `k + i`, leaves other slots unchanged, and moves the cursor one record per write, back to the start exactly after the last slot |
| `StorageProperties.RecoverAfterWrites` | Storage.cpp:61-72 | from a cleared area, `N` writes of non-default records, fewer than the area holds, leave `addr` at `N * sizeof(T)`, and the scan of a freshly constructed store recovers that address |
| `StorageProperties.CursorAfterWrites` | Storage.cpp:142-146 | after `N` writes from slot `k` of an `n`-record area, the cursor is at slot `(k + N) mod n` |
| `StorageProperties.WrapOverwritesOldest` | Storage.cpp:141-146 | `n + m` writes (`m <= n`) from the start of an `n`-record area leave the newest `m` records in slots `0 .. m-1` and records `m .. n-1` of the first lap in the rest |
| `StorageProperties.ClearIdempotent` | Storage.cpp:109-117 | clearing twice gives the same medium as clearing once |
| `StorageProperties.ClearedAreaHoldsNoData` | Storage.cpp:61-76 | after a clear, the scan stops at the first slot, so no data is found and no prompt follows |
| `StorageProperties.FullAreaScanPassesEnd` | Storage.cpp:61 | as written: when every slot of the area holds a record, the scan leaves `addr` at `size` or `size + sizeof(T)`, and the next write changes no slot of the area |
| `StorageProperties.ScanPastEndExample` | Storage.cpp:61-72 | as written, one-record area holding 7, slots after it 8 and 9, default 0: the scan stops at address 8 and the next write of 5 lands two records past the area |
| `StorageProperties.RecoveredSlot` | Storage.cpp:61-72 | corrected recovery: the cursor is always inside the area; it is the first slot of the area that holds the default value, or slot 0 when all slots hold records |
| `StorageProperties.WritesStayInArea` | Storage.cpp:141-146 | from a cursor inside the area, every run of writes keeps the cursor aligned and inside the area and leaves every slot past it unchanged |
| `StorageProperties.RecoveredWritesStayInArea` | Storage.cpp:139-147 | with the corrected recovery, no write after `init` touches a slot past the area, whatever the medium held |
| `StorageProperties.FourRecordScenario` | Storage.cpp:139-147 | a four-record store with default 0: writing 1 and 2 into the cleared area is recovered at slot 2; then 3, 4 and 5 wrap once and leave `[5, 2, 3, 4]` with the cursor at slot 1 |
| `StorageProperties.WriteAll` | Storage.cpp:137-147 | a run of `write` calls through the class leaves the medium and `addr` exactly as `Replay` of the run gives them, so the lemmas about `Replay` describe real runs of `write` |
| `StorageProperties.FirstBootScenario` | Storage.cpp:44-147 | through the class contracts: on a full four-slot EEPROM, `init` answered `"Y"` clears it, and two writes leave `[1, 2, 0, 0]` |
| `StorageProperties.SecondBootScenario` | Storage.cpp:44-147 | through the class contracts: a fresh store on `[1, 2, 0, 0]` recovers address 8, times out on the prompt, and three writes leave `[5, 2, 3, 4]` |

## Left out

- `Serial.begin(9600)` and the wait for the port (Storage.cpp:55-58) are hardware start-up, so they are not modelled.
- The debug output is not modelled, since it is output only: the scanned values printed with `precision` (so the `precision` field is left out too), the progress dots every eight records, `Serial.write(ans)`, and the `DBG_PRINT` messages.
- `delay(1000)` is one tick of `SerialPort.clock`, and the input that arrives during a tick is a parameter. Real time is not modelled.
- Input arrives only during a delay. Characters still on the line while the buffer is drained (Storage.cpp:92-95) are not modelled, so after an answer the model's buffer is empty.
- The byte encoding of records and the internals of `EEPROM.get` and `EEPROM.put` are not modelled. Records are opaque values of `T` compared with `==`, so IEEE float equality (a NaN never equals itself) is not modelled either.
- What the EEPROM returns past its end is the parameter `pastEnd`, and a put past its end is dropped. Real hardware may wrap the address instead.
- An EEPROM length that is not a whole number of records is not modelled: the medium is a whole number of slots.
- `Storage.Storage.constructor`: takes `n` as a natural number and does not model the `size_t` wrap-around of `n * sizeof(T)` for a negative or very large `n`. Addresses are unbounded integers, which matches the code whenever `size` fits in `size_t`.
- `Storage.Storage.Init`: states the effect on the console only as a bound on the number of delays and the consumed input. The exact final buffer is given by `Console.AskToClear`.
- The EEPROM is a parameter of `Init` and `Write`, not a global. Aliasing between two stores over the same EEPROM is not modelled.
- TempMonitor.cpp and TempMonitor.h (the DHT sensor wrapper and the float Celsius-to-Fahrenheit conversion) are not part of this model: they are foreign calls and floating point.
- Debug.h holds only print macros and is not part of this model.
- The explicit instantiation `template class Storage<float>` is compiler plumbing. The model is generic in `T`.

## Findings

| source | as written | input that shows it | evidently intended | confidence | as-written member | corrected member |
|---|---|---|---|---|---|---|
| Storage.cpp:61 | the scan guard `addr <= size` reads the slot at address `size`, past the area. When every slot of the area holds a record, `addr` ends at `size` or `size + sizeof(T)`. The next `write` then stores outside the area and changes none of its slots | `n = 1`, 4-byte records, default 0, EEPROM slots `[7, 8, 9]`: the scan stops at address 8, and `write(5)` stores into slot 2 | scan only the area (`addr < startAddr + size`) and, when it is full, resume at `startAddr`, the base address of the area, so every write stays in the area | medium (not executed) | `StorageProperties.FullAreaScanPassesEnd` | `StorageProperties.RecoveredSlot` |

The class `Storage.Storage` follows the code as written. The corrected
recovery (`RecoveredSlot`) and the proof that writes from it stay inside the
area (`RecoveredWritesStayInArea`) are stated beside it.
