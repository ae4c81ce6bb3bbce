# QEMS data manager, modelled in Dafny

QEMS is a small display appliance. It shows two rolling percentages, a CO2 saving and a cost saving, taken from uploaded CSV schedules. Each metric is backed by a `QEMSDataManager`. A data manager is a fixed store of 120 (timestamp, value) records. Its loader fills the store from the schedule file, keeping only records dated after the time the load starts. Its lookup answers "which value applies now".

The model has two modules:

- `QemsRecords` (`records.dfy`) holds the record type and the pure meaning of both operations:
  - `FutureRecords` and `Window` say which records a load keeps and in which order.
  - `FirstFuture`, `ActiveSlot` and `ActiveValue` say what the lookup answers.
  - The lemmas state properties of those two.
- `QemsDataManager` (`data_manager.dfy`) holds the class `DataManager`. It has the 120-slot `array<Record>` and the three flags `ready`, `loadInProgress` and `fileAvailable`. Its methods are the loops of `QEMSDataManager.h`, proved against the functions above.

External collaborators become parameters:

- The file system is `Option<seq<Line>>`. `None` means the file does not open. `Some(lines)` is the sequence of lines `readStringUntil('\n')` would return while `available()` holds.
- The clock (`QEMSTimeManager::now`) is an `int` parameter `now`.
- The per-line conversions are a `LineParser`: two total functions, one for the timestamp (`strptime` + `mktime`) and one for the value (`toFloat() * 100` cast to `int`). A malformed line yields whatever these return for it; the C++ code has no separate skip.

A ghost field `anchor` records the `now` of the last load that filled the store. The object invariant `Valid()` says the array has 120 slots, `ready` implies `fileAvailable`, and when `ready` holds every slot is strictly after `anchor`.

The C++ code has three behaviours worth stating; the model follows each:

- The code overwrites `_dataPoints[0..k)` in place while loading. There is no side buffer. A load that finds fewer than 120 future records still overwrites its first k slots; it does not roll back. The model states exactly that.
- The code has no explicit skip for a line with an unparsable timestamp. Such a line is kept or dropped by whatever time `mktime` yields, compared with `now`.
- The lookup compares `i > 0` inside the loop, so slot 0 is never returned. The model keeps this behaviour (`ActiveSlot` scans from slot 1), and `Slot0NeverConsulted` and `FullWindowAnswersSlot1` spell out its consequence.

## Model

| member | source | states |
|---|---|---|
| `QemsRecords.FutureRecords` | QEMS/src/QEMSDataManager.h:85-103 | records of the lines parsed strictly after `now`, in file order; never more records than lines |
| `QemsRecords.FutureRecordsAfterAnchor` | QEMS/src/QEMSDataManager.h:98 | every kept record's time is strictly greater than the load's anchor time |
| `QemsRecords.FutureRecordsAppend` | QEMS/src/QEMSDataManager.h:85-103 | each line is handled on its own: the records kept from `a + b` are those from `a` followed by those from `b` |
| `QemsRecords.PastLineIgnored` | QEMS/src/QEMSDataManager.h:93-101 | a line whose parsed time is not after `now` (malformed or past) has no effect on what a load keeps |
| `QemsRecords.AllFutureKept` | QEMS/src/QEMSDataManager.h:85-103 | if every line is in the future, every line's record is kept, at its own position |
| `QemsRecords.FutureRecordsMembers` | QEMS/src/QEMSDataManager.h:85-101 | a record is kept if and only if some line parses into it with a time strictly after `now` |
| `QemsRecords.FutureRecordsSorted` | QEMS/src/QEMSDataManager.h:98-101 | no re-sorting: a chronologically ordered file gives a chronologically ordered store |
| `QemsRecords.Window` | QEMS/src/QEMSDataManager.h:98-101 | the records a load writes: exactly min(120, number of future records), a prefix of the future records, all after `now`; full iff at least 120 future records; nothing dropped when short |
| `QemsRecords.FirstFuture` | QEMS/src/QEMSDataManager.h:39-43 | the smallest index at or after `from` whose time is after `now`, or None exactly when no such index exists |
| `QemsRecords.ActiveSlot` | QEMS/src/QEMSDataManager.h:39-41 | the slot whose value the lookup returns: the first slot from 1 on whose time is after `now`, or None exactly when every slot from 1 on is at or before `now` (slot 0 is skipped by the `i > 0` test) |
| `QemsRecords.ActiveValue` | QEMS/src/QEMSDataManager.h:35-49 | the value of the smallest slot i with 1 <= i and time after `now`, or 0 when every slot from 1 on is at or before `now` |
| `QemsRecords.FirstFutureIgnoresPrefix` | QEMS/src/QEMSDataManager.h:39-43 | the scan from `from` on depends only on slots at or after `from` |
| `QemsRecords.Slot0NeverConsulted` | QEMS/src/QEMSDataManager.h:40 | replacing slot 0 with any record changes neither the selected slot nor the answer |
| `QemsRecords.FullWindowAnswersSlot1` | QEMS/src/QEMSDataManager.h:40-41 | after a full load, a lookup at any time up to the anchor selects slot 1 and answers its value, although slot 0 is also in the future |
| `QemsRecords.AllFutureFileAnswersSecondLine` | QEMS/src/QEMSDataManager.h:85-103 | a file of at least 120 lines, all in the future, fills the store with its first 120 lines, and the lookup answers the second line's value |
| `QemsRecords.ExhaustedAnswersZero` | QEMS/src/QEMSDataManager.h:45-48 | once every slot from 1 on is at or before `now`, no slot is selected and the answer is 0 |
| `QemsRecords.ActiveSlotMonotone` | QEMS/src/QEMSDataManager.h:39-43 | a later clock never selects an earlier slot |
| `QemsDataManager.DataManager.constructor` | QEMS/src/QEMSDataManager.h:24-33 | `fileAvailable` is true exactly when the file opens; `ready` and `loadInProgress` are false; all 120 slots are zero records (fields at lines 127-152) |
| `QemsDataManager.DataManager.GetActiveValue` | QEMS/src/QEMSDataManager.h:35-49 | answers `ActiveValue` of the slots; if no slot from 1 on is in the future, answers 0 and clears `ready`; otherwise `ready` is unchanged; the slots, `fileAvailable` and `loadInProgress` never change |
| `QemsDataManager.DataManager.IsFileAvailable` | QEMS/src/QEMSDataManager.h:51 | returns `fileAvailable`, which is true whenever the store is ready |
| `QemsDataManager.DataManager.LoadDataFromFile` | QEMS/src/QEMSDataManager.h:56-117 | busy: nothing changes. File does not open: not available, not ready, latch released, slots untouched. File opens: slots [0, k) hold the window of k records, slots from k on keep their old contents, `ready` and `fileAvailable` are both true iff k = 120, the latch is released, and the invariant `Valid()` holds |
| `QemsDataManager.DataManager.IsReady` | QEMS/src/QEMSDataManager.h:119 | `ready && fileAvailable`; a ready store holds 120 records, all after the anchor of the load that filled it |
| `QemsDataManager.DataManager.GetFileName` | QEMS/src/QEMSDataManager.h:121 | returns the data file name the store was built with |
| `QemsDataManager.ReloadAndRead` | QEMS/src/main.cpp:48-84 | one store: a reload at clock `now`, then a read at clock `at` guarded by `isReady`. Usable iff the file opened with at least 120 future records; then the value read is `ActiveValue` of the window at `at`, which is the second future record's value when `at <= now`; the store stays ready iff some slot from 1 on is after `at`; when not usable the read is skipped |

## Left out

- File handling through LittleFS (`open`, `available`, `readStringUntil`, `close`): foreign I/O. It is abstracted as `Option<seq<Line>>`; the constructor's probe and the load's open are separate parameters.
- Timestamp parsing with `strptime`/`mktime` and value parsing with `toFloat() * 100` and the `(int)` cast: C library calls, time-zone rules and floating point. They are the two functions of `LineParser`.
- The position of the clock read: `loadDataFromFile` reads `now` right after opening the file. Both are inputs here, so their order is not modelled.
- `Serial.printf`/`Serial.println` diagnostics: output only.
- The loader task's guards in main.cpp (reload only while both files are available and one store is not ready) and its interleaving with the display task: scheduling glue. `ReloadAndRead` models one store, one reload, then one read at a separate clock value.
- Concurrency among the display, loader and web-server tasks, including the non-atomic `_loadInProgress` latch and readers that see a half-written store. Each method is one atomic step. The busy branch of `LoadDataFromFile` is modelled, but the model has no step that leaves `loadInProgress` true.
- Integer widths: the counter `recordPointer` and the lookup index are `uint8_t`. They never exceed 120, so they never wrap, and they are modelled as unbounded naturals. `time_t` values are only compared, so they are unbounded integers.
- The time manager, web server, display, UI and WiFi manager: NTP glue, HTTP plumbing and hardware configuration. The web server's only tie to the core is calling the load after an upload of a matching file name.
