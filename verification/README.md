# Telemetry stores, command queue and state manager: a verified model

This project models six components of the repository in Dafny and proves what
they promise.

* **SD-card packet store** (`PacketStoreModel.dfy`, `PacketStore.dfy`,
  `PacketStoreEffects.dfy`, `PacketStoreDeletes.dfy`, `PacketStoreReads.dfy`,
  `PacketStoreRuns.dfy`). A chronological log in a ring of file slots, with
  cached positions, counts and times in a handler that is also kept in an info
  file. The class moves byte positions and writes slots as the C code does; its
  methods are proved to do to an abstract view (start slot, log, does the file
  exist) what the functions of `PacketStoreModel` say, and those functions to
  mean what `PacketStoreEffects` and the other modules say in terms of records,
  times and slots alone. `Valid` says that the handler is the one handler
  determined by that view and that the info file holds the same handler. The
  range read is modelled in every case, including the 64-bit wrap of the byte
  difference and short reads past the end of the file.
* **RAM storage** (`RamStorageModel.dfy`, `RamStorage.dfy`,
  `RamStorageProperties.dfy`). The same kind of log over an array, with the
  oldest slot derived from the write slot and the count, backward and forward
  scans, and two hand-written distance formulas, one of them in 32 bits. The
  methods, and the exact condition of a delete, are for any log; the theorems
  about windows and runs are for time-ordered logs, which is what the comment at
  `src/ram_storage/ram_storage.c:761` relies on.
* **Queue** (`Queue.dfy`). A byte ring of fixed-size items that refines a machine
  on sequences of byte strings, for every shape that can be created in the memory
  area, those whose byte size overflows included. That machine is a bounded FIFO
  exactly when it does not. Whole runs are carried out on the ring.
* **State manager** (`StateManagerModel.dfy`, `StateManager.dfy`). The
  table-driven state machine fed by that queue, with the mission state's 8-bit
  counter, as one machine whose runs interleave sends and loop turns. Runs are
  carried out on the manager class and the byte ring too.
* **Telemetry cutter** (`CutTm.dfy`). A file of any length is read part by part
  into one buffer, cut into the static buffer, saved and rebuilt. A short
  `fread` leaves the buffer's old bytes, partial elements included.
* **Binary search** (`BinarySearch.dfy`) over a byte array with a stride, through
  unsigned byte indices.

`Cyclic.dfy` has ring slots, `TimeLog.dfy` time-stamped logs, time windows and
the conservation argument shared by the two stores, `Wrappers.dfy` an option
type, the machine integers and the little-endian encoding.

Ring capacities, queue lengths and item sizes are any 32-bit numbers. Record sizes are
the source's packed structs (18 bytes on the card, 13 in RAM), parts are 240
bytes with an 8-byte header, `long` and `size_t` are 64-bit, `unsigned int` is
32-bit and little-endian.

Where the code does not do what its names promise, the code is modelled and the
exact condition is proved:

* A delete on the card takes one record too few exactly when the records to
  delete cross the tail; in RAM also the first slot must not be the tail nor the
  last one the head. A second call with the same time always finishes the job,
  so a run that issues every delete twice leaves exactly the log it should.
* A delete in RAM of a log that is not time-ordered is exact if and only if
  besides that no newer record lies before the last one to delete.
* Emptying the card store erases its records if and only if those past the tail
  were null already. The others stay on the card, and a later read of a gap can
  hand them back.
* A range read on the card is exact if and only if it dumps the whole log or the
  last matching slot is not below the oldest slot. Where it is not exact, a
  buffer one entry too short for two or more matches is accepted. A window
  inside a gap of the log is reported as a read of most of the ring.
* A range read in RAM is always a prefix of the right answer, and is all of it
  if and only if `RamStorageProperties.Reaches` holds. Where it is not, a buffer
  that holds the prefix is accepted. In a ring of 2^32 bytes or more the prefix
  can be empty, and the read then answers -2.
* A created queue is first-in first-out in every run if and only if the product
  of length and item size fits 32 bits; the code checks the product after
  reducing it. Otherwise the ring has fewer slots than it accepts items.
* Binary search is right for every sorted array whose last element begins below
  byte 2^32; for every other shape there is a sorted array it fails on.
* Cutting and rebuilding a file drops its last 232 bytes exactly when its length
  is a positive multiple of 232. The output size is never reset, so a later cut
  also rebuilds stale bytes.

The comment at `src/ram_storage/ram_storage.c:309-317` says the start search
falls back to the nearest element; the code returns NULL, and so does the model.

## Model

| member | source | states |
|---|---|---|
| PacketStore.Store.Init | src/packet_store_sdcard/packet_store_sdcard.c:126-173 | first use creates an empty store; otherwise the live handler becomes the persisted one; log and data file are untouched |
| PacketStore.Store.CachesAgree | src/packet_store_sdcard/packet_store_sdcard.c:17-232 | between calls every cached position, count and time is the one of the log, the file holds the log in ring order, and the info file holds the same handler |
| PacketStore.Store.StoreCallback | src/packet_store_sdcard/packet_store_sdcard.c:177-232 | appends the decoded record, or changes nothing: -1 exactly when the log is full, -2 exactly when it is not and the record is older than the newest; every cache and the info file agree with the log afterwards |
| PacketStoreEffects.StoreIs | src/packet_store_sdcard/packet_store_sdcard.c:188-206 | the three codes and the log they leave, in terms of the log and the time alone |
| PacketStoreEffects.StoreWrites | src/packet_store_sdcard/packet_store_sdcard.c:194-226 | an accepted record goes to the slot behind the newest, round the ring, and no other slot changes |
| PacketStore.Store.SearchStart | src/packet_store_sdcard/packet_store_sdcard.c:235-265 | finds the first record with time >= start and reports its unwrapped position; 1 when there is none, -1 without a file |
| PacketStore.Store.SearchEnd | src/packet_store_sdcard/packet_store_sdcard.c:267-298 | finds the newest record with time <= end going backwards round the ring; 1 when there is none, -1 without a file |
| PacketStore.Store.ReadElementsBetweenTwoDates | src/packet_store_sdcard/packet_store_sdcard.c:315-486 | return code, count and the whole caller buffer, in every case |
| PacketStore.Store.DeleteUpToTime | src/packet_store_sdcard/packet_store_sdcard.c:489-552 | 1 exactly without a data file, 2 exactly when every record is newer; otherwise the log and every slot of the file are fixed, and caches and info file agree afterwards |
| PacketStoreEffects.DeleteErases | src/packet_store_sdcard/packet_store_sdcard.c:518-547 | a delete below the newest time nulls the slots of the records it takes off, and no other slot changes |
| PacketStoreDeletes.DeleteDropsPrefix | src/packet_store_sdcard/packet_store_sdcard.c:489-552 | a delete only drops a prefix, and only records no newer than the given time |
| PacketStoreDeletes.DeleteExact | src/packet_store_sdcard/packet_store_sdcard.c:518-548 | what is left equals the records newer than the time if and only if the deleted ones do not cross the tail; else exactly one more is left |
| PacketStoreDeletes.DeleteTwice | src/packet_store_sdcard/packet_store_sdcard.c:489-552 | two deletes with one time leave exactly the newer records, in every state |
| PacketStoreDeletes.DeleteAllErases | src/packet_store_sdcard/packet_store_sdcard.c:498-517 | emptying the store nulls the slots up to the tail and leaves the records past it, so the records are erased if and only if those were null already |
| PacketStoreReads.ReadExact | src/packet_store_sdcard/packet_store_sdcard.c:315-486 | a read with something to return that fits the buffer equals filtering the log by the window if and only if it dumps all or the last match is not below the oldest slot; otherwise the wrong count and the code are given exactly |
| PacketStoreReads.ReadRefuses | src/packet_store_sdcard/packet_store_sdcard.c:300-480 | a window too long for the buffer is refused with -1, its count given exactly and nothing written, if and only if the read would have been exact, or one record matches, or the buffer is short by more than one; otherwise the code reports 0 and a full buffer |
| PacketStoreReads.ReadDropsNewest | src/packet_store_sdcard/packet_store_sdcard.c:300-313 | where the read is not exact and the first match lies before the tail, all but the newest match is delivered, also into a buffer that is one entry too short |
| PacketStoreReads.ReadPastTail | src/packet_store_sdcard/packet_store_sdcard.c:257-480 | where the first of several matches lies past the tail, code 0, the count one short, and every entry: one from behind the ring, then the records from the head on |
| PacketStoreReads.ReadEmptyWindow | src/packet_store_sdcard/packet_store_sdcard.c:392-484 | with no record in the window: 2, and nothing written, if and only if all records are on one side; else the exact wrong count and the code |
| PacketStoreReads.ReadEntries | src/packet_store_sdcard/packet_store_sdcard.c:315-486 | every entry of every successful read but a dump: the walk starts at the first record at or after the start time, unwrapped, and gives the record of each slot, or what the dead slot holds |
| PacketStoreReads.ReadGap | src/packet_store_sdcard/packet_store_sdcard.c:392-484 | what a read of a gap inside the ring hands over with code 0: the records after the gap, what the dead slots hold, the records before it; the rest of the buffer is unchanged |
| PacketStoreReads.ReadEmptyLog | src/packet_store_sdcard/packet_store_sdcard.c:319-391 | with an empty log: 2 unless the window contains time 0, then 1 before the data file exists and an empty dump afterwards |
| PacketStoreRuns.EveryRunConserves | src/packet_store_sdcard/packet_store_sdcard.c:177-232 | in every run the file holds the sorted log and nulls past the tail, accepted records are the dropped ones followed by the log, and none newer than all deletes is lost |
| PacketStoreRuns.CodeIs | src/packet_store_sdcard/packet_store_sdcard.c:177-552 | in every run the code of each store and each delete, from what was accepted and dropped before it |
| PacketStoreRuns.DeadSlots | src/packet_store_sdcard/packet_store_sdcard.c:489-552 | in every run a slot of the file that is not live is null, or holds a record that an emptying left past the tail |
| PacketStoreRuns.PowerCycle | src/packet_store_sdcard/packet_store_sdcard.c:126-173 | a new process over the old one's disk has the same handler, log and file |
| PacketStoreRuns.Execute | src/packet_store_sdcard/packet_store_sdcard.c:126-552 | any run of stores, deletes and reads carried out on the store with power cycles hands back and leaves what the run without them does |
| PacketStoreRuns.DoubledIsIdeal | src/packet_store_sdcard/packet_store_sdcard.c:489-552 | a run that issues every delete twice leaves exactly the log of a store without a ring, whose deletes filter |
| PacketStoreRuns.ExecuteDoubled | src/packet_store_sdcard/packet_store_sdcard.c:126-552 | the same carried out on the store, power cycles included |
| PacketStoreRuns.ReachableExactly | src/packet_store_sdcard/packet_store_sdcard.c:126-552 | a state arises in some run if and only if its log is sorted, fits, has 10-byte records, and does not start past the head with a record of time 0 |
| PacketStoreRuns.DeleteFallsShort | src/packet_store_sdcard/packet_store_sdcard.c:300-313 | a reachable ring where one delete leaves a record it should take |
| PacketStoreRuns.ReadFallsShort | src/packet_store_sdcard/packet_store_sdcard.c:257 | a read of one record in that ring that is refused |
| PacketStoreRuns.ReadAcceptsShortBuffer | src/packet_store_sdcard/packet_store_sdcard.c:308-311 | a read of two records in that ring that is accepted with room for one |
| PacketStoreRuns.DeleteAllFallsShort | src/packet_store_sdcard/packet_store_sdcard.c:506-510 | a reachable ring that keeps three records on the card when it is emptied |
| PacketStoreRuns.ReadReturnsDeleted | src/packet_store_sdcard/packet_store_sdcard.c:300-484 | a read of a gap, two stores later, that hands one of them back with code 0 |
| RamStorage.Storage.Init | src/ram_storage/ram_storage.c:248-281 | for every length: wipes the heap and sets the storage up empty, or refuses too long a length after the wipe, which leaves a log of zero elements and the handler as it was |
| RamStorage.Storage.WriteElement | src/ram_storage/ram_storage.c:283-307 | appends in the write slot and steps it, writing no other cell, or returns 1 when full and changes nothing |
| RamStorage.Storage.SearchElementStartTime | src/ram_storage/ram_storage.c:318-389 | the address of the newest record with time >= start whose predecessor is older, on any log |
| RamStorageProperties.StartSearchMisses | src/ram_storage/ram_storage.c:334-388 | NULL exactly when no live record has time >= start, sorted or not |
| RamStorageProperties.StartSearchSorted | src/ram_storage/ram_storage.c:318-389 | on a sorted log it is the chronologically first such record |
| RamStorage.Storage.ReadElementsBetweenTwoDates | src/ram_storage/ram_storage.c:550-606 | return code, count and buffer on any log |
| RamStorageProperties.ReadOutcome | src/ram_storage/ram_storage.c:391-606 | in every layout, what a read with something to return reports and hands over: the exact number of records of the window, or -3 when that number does not fit, or -2 when it is zero |
| RamStorageProperties.ReadSound | src/ram_storage/ram_storage.c:550-606 | in every layout a success is a non-empty prefix of the window, and a refusal writes nothing; -1 exactly when no record is recent enough, -2 exactly when the first that is lies past the end or nothing is looked at, which takes 2^32 bytes; -3 exactly when the records the read would hand over do not fit, which is when the window does not fit in the exact layouts |
| RamStorageProperties.ReadExact | src/ram_storage/ram_storage.c:391-606 | a read whose window fits equals filtering the log by the window if and only if the layout condition holds |
| RamStorageProperties.ReadFallsShort | src/ram_storage/ram_storage.c:391-413 | a concrete full ring where the newest record is missed, and where room for one record too few is accepted |
| RamStorageProperties.ReadMissesEverything | src/ram_storage/ram_storage.c:391-413 | with 330382100 records in order from the head, a read of all of them answers -2 |
| RamStorage.Storage.DeleteUpToTime | src/ram_storage/ram_storage.c:608-707 | -1 exactly when every record is newer, else 0; the effect on the log and on every heap cell, on any log |
| RamStorageProperties.DeleteIs | src/ram_storage/ram_storage.c:615-706 | on any log, record by record and cell by cell: the run that ends with the newest record up to the time is nulled, less one in a bad layout, as many of the oldest are forgotten, and no other cell changes |
| RamStorageProperties.DeleteErases | src/ram_storage/ram_storage.c:687-706 | on a sorted log the cells of the dropped records are nulls and no other cell changes |
| RamStorageProperties.DeleteExact | src/ram_storage/ram_storage.c:608-707 | on any log, what is left equals the newer records if and only if there is nothing to delete, or the records to delete are the oldest ones and do not cross the tail away from both ends |
| RamStorageProperties.DeleteSortedExact | src/ram_storage/ram_storage.c:608-707 | on a sorted log only the layout matters, and a bad one leaves exactly one record more; the log stays sorted |
| RamStorageProperties.DeleteTwice | src/ram_storage/ram_storage.c:608-707 | two deletes with one time leave exactly the newer records, in every layout |
| RamStorageProperties.DeleteUnsortedLosesNewer | src/ram_storage/ram_storage.c:687-706 | an unsorted log that fails that condition: a delete loses a newer record |
| RamStorageProperties.DeleteFallsShort | src/ram_storage/ram_storage.c:521-548 | a sorted full ring that fails it: a delete keeps a record |
| RamStorageProperties.EveryRunConserves | src/ram_storage/ram_storage.c:283-307 | in every run of time-ordered writes, deletes and reads accepted records are the dropped ones followed by the sorted log, and none newer than all deletes is lost |
| RamStorageProperties.Execute | src/ram_storage/ram_storage.c:283-707 | such a run carried out on the storage returns every code, count and buffer, and leaves the log, of the machine |
| RamStorageProperties.ExecuteFromInit | src/ram_storage/ram_storage.c:248-763 | such a run after an initialisation leaves nulls in every heap cell that is not live; the oldest and newest time are those of the log, and 0 when it is empty |
| RamStorageProperties.DoubledIsIdeal | src/ram_storage/ram_storage.c:608-707 | a run that issues every delete twice leaves exactly the log of a storage without a ring, whose deletes filter |
| RamStorageProperties.EveryLayoutArises | src/ram_storage/ram_storage.c:283-707 | every sorted log in every ring position is left by some such run |
| RamStorage.Storage.GetOldestTime | src/ram_storage/ram_storage.c:722-746 | the minimum time over exactly the live records, sorted or not; the slot behind the write slot when empty |
| RamStorageProperties.MinimumIsOldest | src/ram_storage/ram_storage.c:722-746 | on a sorted log that is the time in the slot the count lies behind the write slot |
| RamStorage.Storage.GetNewestTime | src/ram_storage/ram_storage.c:755-763 | the time of the last record written |
| Queue.Queue.Create | src/queue/queue.c:131-177 | every code, for every pair of 32-bit arguments; on success an empty ring of that shape, inside the memory area if and only if its slots are, which they are when the product fits 32 bits |
| Queue.Queue.Send | src/queue/queue.c:180-199 | writes the item's bytes behind all waiting ones, or fails exactly at `length` waiting; in a ring with fewer slots it replaces the waiting items that share its slot, and no others |
| Queue.Queue.Receive | src/queue/queue.c:201-222 | hands over the oldest item and leaves the rest of the buffer, or fails exactly when empty |
| Queue.Queue.Traverse | src/queue/queue.c:224-247 | visits exactly the waiting items in FIFO order |
| Queue.EveryRunIsFifo | src/queue/queue.c:180-222 | in every run of a ring with a slot for every item the received items are a prefix of the accepted ones, byte for byte, and the rest still waits |
| Queue.FifoExactly | src/queue/queue.c:131-222 | the received items are a prefix of the accepted ones in every run if and only if the product of length and item size fits 32 bits |
| Queue.CodeIs | src/queue/queue.c:180-222 | in every run a send fails exactly when `length` accepted items are unreceived, a receive exactly when none is |
| Queue.Execute | src/queue/queue.c:180-222 | every run carried out on the byte ring returns the codes and items of the machine; if the product fits, the bytes received followed by those waiting are the bytes accepted |
| Queue.TwoSentOneSlot | src/queue/queue.c:131-222 | 0x80000001 items of 2 bytes: every call succeeds, and the second item sent is received first |
| StateManager.Manager.ChangeState | src/state_manager/state_manager.c:158-190 | 6 exactly for the current state, 1 exactly for target 0, 5 exactly for an unknown one; only targets 1 and 2 change the state, to themselves |
| StateManager.Manager.Update | src/state_manager/state_manager.c:105-128 | consumes one message; the state becomes byte 1 exactly when byte 0 is 1 and byte 1 is 1 or 2; the codes 0, 1, 5 and 6 by the bytes; none is fatal and errors leave the state alone |
| StateManager.Manager.Turn | src/state_manager/state_manager.c:57-82 | one turn of the endless loop is one step of the machine, with its update code, its callback and its execution code |
| StateManager.Manager.Post | src/tcp_server/tcp_server.c:89 | the producer's send is one step of the machine |
| StateManagerModel.EveryRun | src/state_manager/state_manager.c:57-190 | after any interleaving of sends and turns consumed messages are a prefix of accepted ones, the state is byte 1 of the last consumed message whose byte 0 is 1 and byte 1 is 1 or 2, or 1 when there is none, and the mission callback ran at most 12 times, the 12th stopping the thread |
| StateManagerModel.ResultIs | src/state_manager/state_manager.c:57-190 | in every run, each send code, update code, callback and execution code, from what was accepted and consumed before and the bytes of the next message |
| StateManagerModel.TurnsDrain | src/state_manager/state_manager.c:57-128 | with the producer silent, as many turns as messages wait consume them all or stop the thread |
| StateManager.Execute | src/state_manager/state_manager.c:57-190 | every run carried out on a manager and its byte ring returns the results of the machine, ends in the state last commanded and calls the mission callback at most 12 times |
| CutTm.Cutter.CutTheTm | src/cut_tm/cut_tm.c:42-91 | for a file of any length, the number of parts, every byte of the buffer, and the growth of the output size; past the end of the file a part repeats what its buffer held |
| CutTm.CutStaysInside | src/cut_tm/cut_tm.c:63-88 | every byte a cut writes is inside the static buffer if and only if there are at most 255 parts |
| CutTm.Cutter.Reconstruct | src/cut_tm/cut_tm.c:126-187 | the payloads of the announced parts, the last one up to the output size, for a saved file of any length |
| CutTm.RebuiltAt | src/cut_tm/cut_tm.c:148-176 | byte k of what is rebuilt is the one read at 240*(k/232)+8+k%232, for any saved file |
| CutTm.PayloadAt | src/cut_tm/cut_tm.c:63-87 | byte k of the file lands at 240*(k/232)+8+k%232 |
| CutTm.UntouchedAt | src/cut_tm/cut_tm.c:63-87 | a buffer byte that is no count, part number or payload byte keeps its value |
| CutTm.HeaderAt | src/cut_tm/cut_tm.c:66-70 | header i decodes to the number of parts and i |
| CutTm.WrittenIsTight | src/cut_tm/cut_tm.c:88 | the output size is 8 bytes a part plus the bytes that survive, all of them unless the length is a positive multiple of 232 |
| CutTm.RoundTripAfter | src/cut_tm/cut_tm.c:42-176 | after earlier cuts, what is saved can be rebuilt if and only if it fits the parts, and gives the surviving bytes followed by what the buffer held behind them before the cut |
| CutTm.RoundTrip | src/cut_tm/cut_tm.c:42-176 | on a first cut, rebuilding gives the surviving bytes back, and the whole file if and only if its length is 0 or no multiple of 232 |
| CutTm.CutAndReconstruct | src/cut_tm/cut_tm.c:17-187 | both for cut, save (the first `output_size` bytes of the buffer) and reconstruct carried out on the class, from any output size |
| BinarySearch.Search | src/binary_search/binary_search.c:22-52 | an address returned was probed and compared equal, for any array; in a sorted array whose elements begin below byte 2^32 one is returned exactly when an equal element exists; at most as many probes as n has binary digits, each at an element index times the stride in 32 bits |
| BinarySearch.BudgetIs | src/binary_search/binary_search.c:34-50 | that number of probes is the number of binary digits of n |
| BinarySearch.SearchMisses | src/binary_search/binary_search.c:33-37 | for every other shape a sorted array whose last element is not found |
| BinarySearch.CompareU32Is | src/binary_search/binary_search.c:9-20 | on little-endian 32-bit numbers the comparator answers -1, 0 or 1 as the numbers compare |
| BinarySearch.SearchU32 | src/binary_search/binary_search.c:54-74 | in an array of little-endian numbers in ascending order a number is found, at its own index, exactly when it is there |

## Left out

- `src/tcp_server/`, `src/mains/main_thread.c` and pthreads: only the server's send is kept, as an atomic producer step; the code takes no lock, so no finer interleaving is claimed.
- File calls and their failures: the data file is its sequence of element slots, the info file the last handler written; opening fails only for a data file that does not exist yet.
- Bytes of a record inside the card's file: slots hold whole records, and all reads and writes are at slot boundaries.
- Printing, the interactive tests, `get_time`, `sleep` and the print functions other than the traversal of `print_queue`.
- `src/static-allocation/static_allocation.c`: a bump allocator that would only add easy members.
- `src/state_manager/state_survival.c`: only its id and transition map matter; its counter has no effect.
- Several queues over one memory area: the program uses one.
- RamStorage.Storage.GetOldestTime: requires a storage of non-zero length; with length 0 the C code reads outside the heap.
- RamStorage.Storage.GetNewestTime: the same.
- Queue.Queue.Create: says nothing of a ring whose slots end behind the memory area, beyond that it is not valid; its sends write there.
- CutTm.Cutter.CutTheTm: requires at most 255 parts, without which the C code writes outside the static buffer (`CutTm.CutStaysInside`); the output size is not reduced to 32 bits.
- CutTm.Cutter.Reconstruct: requires the output size to end in the last announced part, without which the C code reads or copies outside its part buffer.
- CutTm.CutAndReconstruct: requires the same, and that the output size stays inside the static buffer.
