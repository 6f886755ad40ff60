# ZBOSS core tables and queues, modelled in Dafny

ZBOSS is a ZigBee 2007 stack in C, written as callbacks over fixed tables. This project models its stateful core
and proves what the tables and queues promise, over single calls and over runs of any length. The layers it does
not model (network, MAC, ZDO, the application and the callbacks themselves) are an arbitrary environment that
calls the public operations in any order.

Each component comes in two forms. A specification on values says what an operation means and carries the laws:
invariants over every run, round trips, orders, and exact conditions under which the code keeps them. A class
updates arrays, linked nodes and counters in place, loop by loop as the C does, and each of its methods is proved
equal to the specification. Table and queue sizes are parameters or constants without a fixed value.

| files | component |
|---|---|
| `AddressModel.dfy`, `AddressTable.dfy`, `AddressAsWritten.dfy` | the address translation table, its sorted index and its hash probe |
| `Manufacturers.dfy` | the dictionary that compresses 8-byte addresses |
| `DupDetection.dfy` | duplicate rejection with clocks that age out |
| `Bindings.dfy`, `BindingTable.dfy` | the binding table as a list of pairs, and as two arrays that refer to each other |
| `GroupModel.dfy`, `GroupLayer.dfy` | the group table and the passing up of group messages |
| `ZbTime.dfy`, `ScheduleModel.dfy`, `Scheduler.dfy` | wrapping time, the alarm queue and the callback queue |
| `Lists.dfy`, `RingBuffers.dfy`, `Partitions.dfy`, `Memory.dfy`, `Prelude.dfy` | the list and ring-buffer macros, `memmove`, shared vocabulary |
| `PoolModel.dfy`, `BufferPool.dfy` | the buffer pool with two quotas and two queues of waiters |
| `BufferWindow.dfy` | the sliding data window of a packet buffer |
| `ApsFrames.dfy` | APS headers, acknowledgements and their parser |
| `Retransmission.dfy`, `ApsTransitions.dfy`, `ApsKeys.dfy`, `ApsScenarios.dfy`, `ApsOutcomes.dfy`, `ApsRefusals.dfy`, `RetransmitTable.dfy` | retransmission: the four-state machine of each table slot, its transitions field by field, which entry an acknowledgement finds, particular orders of events, what becomes of each frame in any run, what refused requests change, and the table in memory |

## Where code and intent part

Operations are modelled as written; where that breaks what they are for, a lemma gives the exact condition under
which they keep it and another a concrete case where they do not.

- `del_short_sorted` moves one element too many (`zb_address.c:711`). The class uses the corrected length, still
  stopping after the match; the loop as written is `AddressAsWritten.DelShortSorted`, with `DeletesOneIff` and
  `ZeroedTableLosesBoth`.
- `save_ack_data` tests for a full table one slot early (`aps_main.c:1017`): `SendKeepsInvIff`, `FullTestIsOneEarly`.
- A second acknowledgement before the network confirm finishes an entry the network layer still uses
  (`aps_main.c:1059`): `AckKeepsInvIff`, `SecondAckFinishesEarly`.
- The alarm of an entry takes a try even while the network layer has not confirmed the frame, without sending it
  again (`aps_main.c:1104`): with w such alarms before the last try a frame goes out MAX_FRAMES - w times, not
  MAX_FRAMES: `SentFrameGivesUp`, `EarlyAlarmWastesTry`.
- A matching acknowledgement in the short format frees the buffer of a data frame in one order of events and confirms
  it in the other: `AckAndConfirmCommuteIff`, `ShortAckDependsOnOrder`.
- The do-while searches of the binding table look at slot 0 of an empty table, where the last pairs unbound are still
  to be found. Unbinding then answers OK for pairs that are not bound and takes a counter to 255: `UnbindOnEmptyIff`,
  `StaleKeyAnswersOk`, `UnbindLastTwice`. An indirect packet goes to the unbound device: `SearchOnEmptyIff`,
  `SendAfterUnbind`.
- Right allocation asserts `size + len` but not the offset (`zb_bufpool.c:295`): `StaysInsideIff`,
  `RightAllocationRunsOff`.
- While the receiver needs a buffer, freeing an input buffer passes over waiters, and a later request overtakes
  them: `StepKeepsWaitInvIff`, `ReceiverClaimStrandsWaiter`. A waiter whose turn comes while the callback queue
  is full loses it: `WaiterServedIff`, `RunServesInOrderIff`, `FullQueueLosesWaiter`.
- Deleting an address leaves its duplicate clock running, and the next source to get the slot may lose its first
  packet; so does the eviction of an address by an update: `DeletionKeepsInvIff`, `UpdateKeepsInvIff`,
  `FirstPacketIsDupIff`, `ReusedSlotDropsNewSource`.
- The short address 0xFFFF stands for no address, and no lookup finds it; packets from it never repeat and use up
  the address table: `NoShortNeverRepeats`.
- Two locked entries that conflict in an update are only asserted away: `UpdateKeepsUniqueKeysIff`,
  `LockedConflictDuplicatesKey`.
- The header parser does not compare what the frame control announces with the length of the packet:
  `OwnBytesOnlyIff`.
- The callback that passes up group messages ignores that its request for the next buffer can be refused, which ends
  the passing up for good: `KeepsGoingIff`, `StallIsForGood`.
- The header of a data request is filled from a request in the tail of the same buffer, after making room may have
  moved the payload onto it: `TailKeptIff`.
- The retransmission code ignores that the scheduler can refuse an alarm or a callback; an entry without its alarm
  is neither repeated nor given up: `SendRoomIff`, `TimerRoomIff`, `StuckForGood`.
- The header size macro looks at the frame type where acknowledgements of commands need the ack format:
  `AckHeaderSizeIff`.
- The 16-bit time comparison is right up to a span of 32766 ticks, and no further: `GeIsTrueOrder`,
  `SpanBoundIsTight`. An alarm as early as the head goes before it, one as early as a later entry behind it.
- A callback that re-schedules itself with delay 0 keeps the due-alarm loop running: `ZeroDelayNeverStops`.

## Model

| member | source | states |
|---|---|---|
| AddressModel.UpdateKeepsUniqueKeysIff | ZBOSS_v1.0_src/common/zb_address.c:375-450 | after an update no two used entries share a short or a non-zero long address, iff the two conflicting entries were not both locked, or the long address is the zero one |
| AddressModel.UpdateBindsPair | ZBOSS_v1.0_src/common/zb_address.c:375-450 | a successful update makes both lookups return the same reference, leaves neither key in any other entry, and changes unrelated entries at most in their ageing bit; a failed one changes nothing |
| AddressModel.UpdateFailsIff | ZBOSS_v1.0_src/common/zb_address.c:375-450 | an update fails iff every slot is used and none holds either key |
| AddressModel.UpdateChanges | ZBOSS_v1.0_src/common/zb_address.c:375-450 | with a known key, which entry the update keeps and which it deletes: the kept one takes both keys, and no other entry changes in anything |
| AddressModel.UpdateNeverEvictsLocked | ZBOSS_v1.0_src/common/zb_address.c:390-412 | merging two conflicting entries never deletes a locked one, nor changes its lock count |
| AddressModel.EvictionClearsKeys | ZBOSS_v1.0_src/common/zb_address.c:390-418 | after the conflict is resolved the kept entry is the only one that can hold either key, the zero long address aside |
| AddressModel.RunKeepsUniqueKeys | ZBOSS_v1.0_src/common/zb_address.c:325-450 | any run of lookups, insertions, updates, deletions, locks and unlocks keeps both keys unique |
| AddressModel.RunKeepsLocked | ZBOSS_v1.0_src/common/zb_address.c:500-527 | a locked reference stays allocated through any run that does not unlock or delete it |
| AddressModel.AddKeepsUniqueKeys | ZBOSS_v1.0_src/common/zb_address.c:598-683 | creating an entry for keys that are absent keeps keys unique |
| AddressModel.AddCreates | ZBOSS_v1.0_src/common/zb_address.c:598-683 | creation fails iff all slots are used; else the first unused slot on the walk from the hash of the long address, or from slot 0, becomes an entry with the given keys, a zero long address if none is given, and the ageing bit set |
| AddressModel.CreatedIsFound | ZBOSS_v1.0_src/common/zb_address.c:653-673 | the new entry is what both lookups find under its keys, and every other key is found where it was |
| AddressModel.ByShortLooksUp | ZBOSS_v1.0_src/common/zb_address.c:354-372 | a known short address gives the entry the search finds, whose keys stay; an unknown one is created on request while a slot is free, and is found there from then on, all other keys where they were; otherwise nothing changes |
| AddressModel.ByIeeeLooksUp | ZBOSS_v1.0_src/common/zb_address.c:325-351 | the same by long address |
| AddressModel.TickClearsFirst | ZBOSS_v1.0_src/common/zb_address.c:767-801 | a tick clears the ageing bit of the first used and unlocked entry on a walk from the hand, and without one changes nothing |
| AddressModel.UnlockUndoesLock | ZBOSS_v1.0_src/common/zb_address.c:500-524 | a lock counts one up and sets the ageing bit, and unlocking takes the count back |
| AddressModel.HashIsPolynomial | ZBOSS_v1.0_src/common/zb_address.c:313-323 | the hash is a polynomial in 33 over four device bytes |
| AddressModel.LockedConflictDuplicatesKey | ZBOSS_v1.0_src/common/zb_address.c:375-450 | a concrete map in which two locked entries conflict and the update leaves one long address in both |
| AddressModel.DeleteKeepsUniqueKeys | ZBOSS_v1.0_src/common/zb_address.c:685-690 | deleting an entry keeps keys unique |
| AddressModel.ProbeCovers | ZBOSS_v1.0_src/common/zb_address.c:537-565 | a failed hash probe has looked at every slot, so it is as good as a linear scan |
| AddressTables.IndexedIsUniqueShort | ZBOSS_v1.0_src/common/zb_address.c:725-758 | a complete strictly ascending index exists only if short addresses are unique; it has no repeats |
| AddressTables.IndexIsDetermined | ZBOSS_v1.0_src/common/zb_address.c:725-758 | there is only one such index for a map |
| AddressTables.IndexDecidesLookup | ZBOSS_v1.0_src/common/zb_address.c:567-596 | once every index position but one is excluded, that position decides what a linear scan of the map finds |
| AddressTables.InsertCompletesIndex | ZBOSS_v1.0_src/common/zb_address.c:725-758 | inserting a reference between the smaller and the larger addresses makes the index complete |
| AddressTables.RemovalSkipsRef | ZBOSS_v1.0_src/common/zb_address.c:698-716 | removing a reference leaves an index of all other entries |
| AddressTables.ScanSawAll | ZBOSS_v1.0_src/common/zb_address.c:767-808 | when the ageing scan ends without a find, no entry was evictable and the tick changes nothing |
| AddressTables.AddUsesOneMore | ZBOSS_v1.0_src/common/zb_address.c:598-683 | insertion adds exactly one used slot |
| AddressTables.AddressTable.constructor | ZBOSS_v1.0_src/common/zb_init.c:87 | the zeroed table satisfies the invariant: index sorted, repeat-free and complete, n_elements the number of used slots, keys unique |
| AddressTables.AddressTable.ShortSearch | ZBOSS_v1.0_src/common/zb_address.c:567-596 | the binary search returns what a linear scan of the map returns |
| AddressTables.AddressTable.IeeeSearch | ZBOSS_v1.0_src/common/zb_address.c:537-565 | the open-hash probe loop returns the entry of the long address, or nothing if there is none |
| AddressTables.AddressTable.DelShortSorted | ZBOSS_v1.0_src/common/zb_address.c:698-716 | removes exactly the one reference (move length corrected) |
| AddressTables.AddressTable.InsertionPoint | ZBOSS_v1.0_src/common/zb_address.c:725-758 | the position splits the index into smaller and larger addresses |
| AddressTables.AddressTable.AddShortSorted | ZBOSS_v1.0_src/common/zb_address.c:725-758 | the index is sorted and complete again |
| AddressTables.AddressTable.ClockTick | ZBOSS_v1.0_src/common/zb_address.c:767-808 | the wrapping scan clears the ageing bit of the first evictable entry after the hand, and of no other; the hand then stands right behind it |
| AddressTables.AddressTable.AddrAdd | ZBOSS_v1.0_src/common/zb_address.c:598-683 | creation in place equals the pure insertion and keeps the whole invariant; it fails iff all slots are used, and else an unused slot has become an entry with exactly the given keys |
| AddressTables.AddressTable.DeleteRef | ZBOSS_v1.0_src/common/zb_address.c:685-690 | deletion in place clears the used bit, changes nothing else in the map, and keeps the whole invariant |
| AddressTables.AddressTable.ByLong | ZBOSS_v1.0_src/common/zb_address.c:325-351 | lookup by long address, with or without creation and locking, keeps the invariant; the reference is what the search gives, or that of a new entry found under that address from then on; a lock counts one up; all other keys are found where they were |
| AddressTables.AddressTable.ByShortAddr | ZBOSS_v1.0_src/common/zb_address.c:354-372 | the same by short address: a created entry carries it, has the zero long address and the ageing bit set |
| AddressTables.AddressTable.LockRef | ZBOSS_v1.0_src/common/zb_address.c:500-511 | counts one more lock and keeps the invariant |
| AddressTables.AddressTable.UnlockRef | ZBOSS_v1.0_src/common/zb_address.c:514-524 | counts one lock less and keeps the invariant |
| AddressTables.AddressTable.ReplaceShort | ZBOSS_v1.0_src/common/zb_address.c:419-428 | moving an entry to a new short address re-sorts it |
| AddressTables.AddressTable.EvictOne | ZBOSS_v1.0_src/common/zb_address.c:390-412 | of two conflicting entries the unlocked one goes, the short-address holder first |
| AddressTables.AddressTable.UpdatePair | ZBOSS_v1.0_src/common/zb_address.c:375-450 | the update in place equals the pure one, keeps the invariant, and afterwards the entry holds the pair, the short lookup finds it, and so does the long one unless the long address is the zero one |
| AddressAsWritten.DelShortSorted | ZBOSS_v1.0_src/common/zb_address.c:698-716 | the loop exactly as written, with its overlong move, computes the scan of the next rows |
| AddressAsWritten.DeletesOneIff | ZBOSS_v1.0_src/common/zb_address.c:698-716 | as written, one reference is removed iff it is not listed, or is listed last, or the slot after the live range does not hold it too |
| AddressAsWritten.ZeroedTableLosesBoth | ZBOSS_v1.0_src/common/zb_address.c:698-716 | a zeroed table with references 0 and 1 is empty after deleting reference 0 |
| Manufacturers.RoundTripForever | ZBOSS_v1.0_src/common/zb_address.c:261-307 | decompressing a compressed address returns it, now and after any later compressions |
| Manufacturers.EqualCodesIff | ZBOSS_v1.0_src/common/zb_address.c:810-814 | two addresses compress equally iff they are equal, whatever was compressed in between |
| Manufacturers.CompressFailsIff | ZBOSS_v1.0_src/common/zb_address.c:261-301 | compression fails iff the dictionary is full of other prefixes |
| Manufacturers.CompressTakesLastFree | ZBOSS_v1.0_src/common/zb_address.c:261-301 | the code is the slot that has the prefix, the dictionary staying as it is, or else the last unused slot, and the last five octets |
| Manufacturers.RunNeverFails | ZBOSS_v1.0_src/common/zb_address.c:261-301 | a run never fails while held and used prefixes together fit the dictionary, and it then holds exactly those |
| Manufacturers.FreshRunNeverFails | ZBOSS_v1.0_src/common/zb_address.c:261-301 | from an empty dictionary of n slots, no compression fails with at most n distinct prefixes |
| Manufacturers.CompressKeepsNoRepeats | ZBOSS_v1.0_src/common/zb_address.c:261-301 | a prefix is never stored twice |
| Manufacturers.ManufacturerTable.CompressAddress | ZBOSS_v1.0_src/common/zb_address.c:261-301 | the loop over the dictionary in place computes the pure compression |
| Manufacturers.ManufacturerTable.DecompressAddress | ZBOSS_v1.0_src/include/zb_address.h:118-126 | puts the stored prefix back in front of the device id |
| DupDetection.RunKeepsInv | ZBOSS_v1.0_src/aps/aps_dups.c:65-139 | in runs that delete and evict only entries whose clock is off, the alarm is pending, once, iff it is marked running iff some used entry has a non-zero clock |
| DupDetection.RepeatIsDupIff | ZBOSS_v1.0_src/aps/aps_dups.c:65-104 | between two packets of a source with others and ticks in between, the second is a dup iff counters agree and fewer than three ticks passed |
| DupDetection.PacketChecked | ZBOSS_v1.0_src/aps/aps_dups.c:65-104 | a packet gives its source, found or created, its counter and three ticks and touches nobody else's; it is a dup iff that source had this counter with a tick left; with an unknown source and a full table nothing changes |
| DupDetection.NextIsDupIff | ZBOSS_v1.0_src/aps/aps_dups.c:65-104 | of two packets of a source in a row, even of one not known before, the second is a dup iff the counters are equal |
| DupDetection.FirstPacketIsNotDup | ZBOSS_v1.0_src/aps/aps_dups.c:65-104 | the first packet of a new source is never dropped while the invariant holds |
| DupDetection.FirstPacketIsDupIff | ZBOSS_v1.0_src/aps/aps_dups.c:65-104 | without it, it is dropped iff the slot it gets still carries a running clock and the same counter |
| DupDetection.DeletionKeepsInvIff | ZBOSS_v1.0_src/common/zb_address.c:685-690 | deleting an address keeps the invariant iff its clock was off |
| DupDetection.UpdateKeepsInvIff | ZBOSS_v1.0_src/common/zb_address.c:375-450 | an update keeps the invariant iff it does not evict an entry whose clock is on |
| DupDetection.NoShortNeverRepeats | ZBOSS_v1.0_src/aps/aps_dups.c:65-104 | a packet from 0xFFFF is never found to repeat, and takes one more slot of the address table while there is one |
| DupDetection.ReusedSlotDropsNewSource | ZBOSS_v1.0_src/common/zb_address.c:598-683 | a concrete run in which the first packet of a new source is dropped |
| DupDetection.QuietRunStops | ZBOSS_v1.0_src/aps/aps_dups.c:113-139 | without packets the alarm fires at most three times, after which all clocks are off and none is pending |
| DupDetection.ScanInBounds | ZBOSS_v1.0_src/aps/aps_dups.c:119-132 | the counting loop never passes the end of the table |
| DupDetection.DupDetector.CheckPacket | ZBOSS_v1.0_src/aps/aps_dups.c:65-104 | the check in place equals the pure one |
| DupDetection.DupDetector.AgeEntries | ZBOSS_v1.0_src/aps/aps_dups.c:119-132 | the counting loop ages every used entry by one tick and reports whether any clock still runs |
| DupDetection.DupDetector.TimerCallback | ZBOSS_v1.0_src/aps/aps_dups.c:113-139 | the callback in place equals the pure step, re-arming itself iff a clock still runs |
| Bindings.KeysAreRows | ZBOSS_v1.0_src/aps/aps_bind.c:63-76 | the source rows are exactly the distinct keys in use: no source row is unreferenced |
| Bindings.BindAppends | ZBOSS_v1.0_src/aps/aps_bind.c:94-139 | a successful bind appends exactly one pair and keeps the two arrays consistent |
| Bindings.OtherRowsPairs | ZBOSS_v1.0_src/aps/aps_bind.c:190-217 | removing rows of a source removes exactly the equal pairs |
| Bindings.DropRow | ZBOSS_v1.0_src/aps/aps_bind.c:219-238 | dropping an unreferenced source row and re-indexing changes no pair |
| Bindings.UnbindRemoves | ZBOSS_v1.0_src/aps/aps_bind.c:187-238 | unbind deletes exactly the pairs equal to the request and keeps the arrays consistent |
| Bindings.BindThenUnbind | ZBOSS_v1.0_src/aps/aps_bind.c:79-238 | binding an absent pair and unbinding it restores the list |
| Bindings.UnbindRequestDone | ZBOSS_v1.0_src/aps/aps_bind.c:152-217 | field by field: unbind removes all pairs of the request's source address, endpoint and cluster with its device and endpoint in mode 3, or with its group in mode 1, and no others; every other mode or an unknown key changes nothing |
| Bindings.RemovedByParts | ZBOSS_v1.0_src/aps/aps_bind.c:190-217 | the pairs left keep their order |
| BindingTables.BindingTable.BindRequest | ZBOSS_v1.0_src/aps/aps_bind.c:79-146 | the request in place appends, in mode 3, the pair of its source address, endpoint and cluster with its destination and destination endpoint, and in mode 1 with its group; TABLE_FULL iff the pairs fill their array or a new key has no row left; status and unchanged contents for every other failure |
| BindingTables.BindingTable.UnbindRequest | ZBOSS_v1.0_src/aps/aps_bind.c:152-248 | the request in place removes exactly the pairs it names, in its own fields, unless an empty table holds a stale row of the key and the address mode is valid; the rows of the last pairs to go stay behind |
| BindingTables.BindingTable.RemoveRows | ZBOSS_v1.0_src/aps/aps_bind.c:190-217 | the compaction loop keeps exactly the other rows in order, and tells whether the source is still used |
| BindingTables.BindingTable.DropSource | ZBOSS_v1.0_src/aps/aps_bind.c:219-238 | removes the source row and lowers the later indices |
| BindingTables.BindingTable.FindSrcRef | ZBOSS_v1.0_src/aps/aps_bind.c:63-76 | the do-while search as written, which looks at slot 0 of an empty table |
| BindingTables.BindingTable.SearchTarget | ZBOSS_v1.0_src/aps/aps_main.c:113-158 | an indirect packet goes to the target of the first pair of its source if that is a device, and nowhere if it is a group or there is none; on an empty table to whatever slot 0 holds |
| BindingTables.IndirectTargetIsFirst | ZBOSS_v1.0_src/aps/aps_main.c:113-158 | on the list: the first pair with the key decides |
| BindingTables.UnbindOnEmptyIff | ZBOSS_v1.0_src/aps/aps_bind.c:152-238 | unbinding from an empty table gives the status of the empty list and leaves both counters at zero, iff slot 0 does not hold the key or the address mode is invalid |
| BindingTables.UnbindOnEmptyCountsIff | ZBOSS_v1.0_src/aps/aps_bind.c:187-238 | the counters alone stay at zero iff slot 0 does not hold the key, the request names no valid target, or slot 0 leads from the key to another one |
| BindingTables.StaleKeyAnswersOk | ZBOSS_v1.0_src/aps/aps_bind.c:187-238 | a concrete request to unbind a pair that is not bound is answered with success |
| BindingTables.UnbindLastThenOther | ZBOSS_v1.0_src/aps/aps_bind.c:152-238 | that state is reached by unbinding the last pairs of any table: a request for another target of the same source is then answered with success |
| BindingTables.SendAfterUnbind | ZBOSS_v1.0_src/aps/aps_main.c:113-158 | after the last pairs of any table are unbound, an indirect packet still goes to the device they led to |
| BindingTables.UnbindLastTwice | ZBOSS_v1.0_src/aps/aps_bind.c:187-217 | unbinding them once more takes the destination count to 255 |
| BindingTables.SearchOnEmptyIff | ZBOSS_v1.0_src/aps/aps_main.c:113-158 | the search over an empty table agrees with the empty list iff slot 0 is not a stale long-address row of the key |
| ZbTime.AddWraps | ZBOSS_v1.0_src/include/zb_time.h:116 | 16-bit addition tracks true time |
| ZbTime.WrapDifference | ZBOSS_v1.0_src/include/zb_time.h:105-130 | 16-bit subtraction tracks true differences |
| ZbTime.GeIsTrueOrder | ZBOSS_v1.0_src/include/zb_time.h:130 | the 16-bit comparison gives the true order iff the difference is at most 32766 |
| ZbTime.SubtractIsDistance | ZBOSS_v1.0_src/include/zb_time.h:105 | the 16-bit subtraction gives the true distance iff the difference is not 32767 |
| ZbTime.GeFailsBeyondSpan | ZBOSS_v1.0_src/include/zb_time.h:130 | one tick beyond, neither time is found to be after the other |
| RingBuffers.SlotIsModulo | ZBOSS_v1.0_src/include/zb_ringbuffer.h:71-188 | slots are counted from the read position modulo the capacity |
| RingBuffers.RingBuffer.Put | ZBOSS_v1.0_src/include/zb_ringbuffer.h:98-148 | appends to the FIFO and never overwrites the entry being read |
| RingBuffers.RingBuffer.Get | ZBOSS_v1.0_src/include/zb_ringbuffer.h:157-173 | peeks at the oldest entry |
| RingBuffers.RingBuffer.FlushGet | ZBOSS_v1.0_src/include/zb_ringbuffer.h:184-188 | drops the oldest entry |
| Lists.CutHead | ZBOSS_v1.0_src/include/zb_list_macros.h:161-173 | the list loses its head and stays well formed, the head pointing back to the tail |
| Lists.InsertHead | ZBOSS_v1.0_src/include/zb_list_macros.h:180-194 | the list gains a new head |
| Lists.InsertTail | ZBOSS_v1.0_src/include/zb_list_macros.h:200-215 | the list gains a new tail |
| Lists.InsertAfter | ZBOSS_v1.0_src/include/zb_list_macros.h:221-238 | the list gains an entry behind a given one |
| Lists.Remove | ZBOSS_v1.0_src/include/zb_list_macros.h:290-314 | the list loses the given entry wherever it stands |
| Lists.Push | ZBOSS_v1.0_src/include/zb_list_macros.h:480-486 | stack push |
| Lists.Pop | ZBOSS_v1.0_src/include/zb_list_macros.h:488-501 | stack pop, also of an empty stack |
| Lists.PutTail | ZBOSS_v1.0_src/include/zb_list_macros.h:370-385 | the single-linked FIFO gains a tail |
| Lists.TakeHead | ZBOSS_v1.0_src/include/zb_list_macros.h:403-420 | the single-linked FIFO loses its head, or stays empty |
| ScheduleModel.InsertKeepsTrueOrder | ZBOSS_v1.0_src/common/zb_scheduler.c:273-361 | if true times span at most 32766 ticks, scheduling inserts exactly one alarm and keeps the queue in true order; unless it goes first, it goes behind every alarm not later than it, those of equal time included |
| ScheduleModel.SpanBoundIsTight | ZBOSS_v1.0_src/common/zb_scheduler.c:273-361 | one tick more and an earlier alarm is queued behind a later one |
| ScheduleModel.CancelTakesFirst | ZBOSS_v1.0_src/common/zb_scheduler.c:364-390 | cancelling takes exactly the first match and keeps the order of the rest |
| ScheduleModel.CancelTakesAll | ZBOSS_v1.0_src/common/zb_scheduler.c:364-390 | with ALL_CB every match goes and every other alarm stays |
| ScheduleModel.SetAlarmQueues | ZBOSS_v1.0_src/common/zb_scheduler.c:273-361 | with a free entry, exactly the alarm with that function and parameter for so many ticks from now, in 16-bit time, joins the queue, the others in order; without one nothing changes |
| ScheduleModel.CancelRemovesFirst | ZBOSS_v1.0_src/common/zb_scheduler.c:374-386 | a parameter below 254 cancels the first alarm with that very function and parameter, 255 the first of the function |
| ScheduleModel.CancelMissesOthers | ZBOSS_v1.0_src/common/zb_scheduler.c:374-386 | and if there is none nothing changes |
| ScheduleModel.CancelAllByParts | ZBOSS_v1.0_src/common/zb_scheduler.c:374-386 | with 254 every alarm of the function goes and the others keep their order |
| ScheduleModel.ApplyConservesPool | ZBOSS_v1.0_src/common/zb_scheduler.c:273-390 | no sequence of schedule and cancel loses or invents a queue entry |
| ScheduleModel.CallsRunInOrder | ZBOSS_v1.0_src/common/zb_scheduler.c:103-125 | callbacks run in scheduling order, even those scheduled by running callbacks |
| ScheduleModel.RunConservesPool | ZBOSS_v1.0_src/common/zb_scheduler.c:129-160 | nor does running due alarms |
| ScheduleModel.RunAddsUp | ZBOSS_v1.0_src/common/zb_scheduler.c:129-160 | every alarm queued at first or set by a running callback has run, was cancelled or is still queued, each exactly once and with its function, parameter and time |
| ScheduleModel.QuietRunIsPrefix | ZBOSS_v1.0_src/common/zb_scheduler.c:129-160 | with callbacks that leave the scheduler alone, what runs is the due front of the queue, in its order, and its entries are free again |
| ScheduleModel.ApplyKeepsTrueOrder | ZBOSS_v1.0_src/common/zb_scheduler.c:273-390 | whatever a callback schedules with positive delay or cancels, the queue stays in true order, each new alarm being for its delay after the true time it was set, and nothing more is due |
| ScheduleModel.DueLoopIsFiniteAndOrdered | ZBOSS_v1.0_src/common/zb_scheduler.c:129-160 | the due loop runs alarms in non-decreasing true time, at most as many as were due, and unless interrupted leaves only later ones |
| ScheduleModel.DueLoopStops | ZBOSS_v1.0_src/common/zb_scheduler.c:129-160 | it stops by itself: given one more turn than alarms due, it ends with nothing due at the head |
| ScheduleModel.ZeroDelayNeverStops | ZBOSS_v1.0_src/common/zb_scheduler.c:129-160 | a callback that re-schedules itself with delay 0 keeps it running for ever |
| Partitions.PartitionApart | ZBOSS_v1.0_src/common/zb_scheduler.c:135-153 | what the partition of the entry pool gives: no entry is on two of the alarm list, the free list and the running entry |
| Partitions.PartitionDistinct | ZBOSS_v1.0_src/common/zb_scheduler.c:135-153 | or on one of them twice |
| Partitions.PartitionCovers | ZBOSS_v1.0_src/common/zb_scheduler.c:135-153 | and every entry of the pool is on one of them |
| Schedulers.Scheduler.constructor | ZBOSS_v1.0_src/common/zb_scheduler_init.c:56-70 | the initial state: all entries free |
| Schedulers.Scheduler.ScheduleCallback | ZBOSS_v1.0_src/common/zb_scheduler.c:243-263 | appends that function and parameter to the callback queue unless it is full |
| Schedulers.Scheduler.ScheduleAlarm | ZBOSS_v1.0_src/common/zb_scheduler.c:273-361 | the list surgery puts in the alarm with that function and parameter for so many ticks from now, where the pure model does, all others in order; queued, free and running entries still partition the pool |
| Schedulers.Scheduler.CancelAlarm | ZBOSS_v1.0_src/common/zb_scheduler.c:364-390 | the loop over the list cancels what the pure model does and returns entries to the free list, keeping the partition |
| Schedulers.Scheduler.RunCallbacks | ZBOSS_v1.0_src/common/zb_scheduler.c:103-125 | the callback loop computes the pure run, callbacks scheduling and cancelling as they like |
| Schedulers.Scheduler.RunDueAlarms | ZBOSS_v1.0_src/common/zb_scheduler.c:129-160 | the due loop computes the pure run; the running entry is on neither list meanwhile |
| Schedulers.Scheduler.StartHead | ZBOSS_v1.0_src/common/zb_scheduler.c:135-149 | cutting the head leaves one running entry and the other two lists intact |
| Schedulers.Scheduler.FinishRun | ZBOSS_v1.0_src/common/zb_scheduler.c:151-153 | afterwards the entry is free again |
| Schedulers.Scheduler.InsertBefore | ZBOSS_v1.0_src/common/zb_scheduler.c:312-332 | the entry lands before the one the scan stopped at, or at the tail |
| PoolModel.TakeFailsIff | ZBOSS_v1.0_src/common/zb_bufpool.c:110-141 | an allocation fails iff its own half of the pool is used up: neither kind starves the other |
| PoolModel.RunKeepsInv | ZBOSS_v1.0_src/common/zb_bufpool.c:110-249 | in any run every buffer is free, an input or an output buffer, exactly one of these and once, and neither kind exceeds its half |
| PoolModel.WaiterGetsFreedBuffer | ZBOSS_v1.0_src/common/zb_bufpool.c:203-249 | the buffer handed to a waiter is never missing: it is the one just freed, and nobody holds more or fewer |
| PoolModel.PutBackThenTake | ZBOSS_v1.0_src/common/zb_bufpool.c:203-249 | the buffer put back last is the first taken, and the pool is then as before |
| PoolModel.WaiterServedIff | ZBOSS_v1.0_src/common/zb_bufpool.c:225-240 | a waiter taken off the queue is served iff the callback queue has room |
| PoolModel.AskAnswers | ZBOSS_v1.0_src/common/zb_bufpool.c:155-189 | field by field: below the quota the buffer on top of the free list becomes one of the kind asked for and the callback is scheduled with that very buffer; else the request is last in its queue, or refused without an entry |
| PoolModel.ReleaseReleases | ZBOSS_v1.0_src/common/zb_bufpool.c:203-249 | field by field: the first waiter of the kind gets that very buffer, or it is on top of the free list |
| PoolModel.ReleaseKeepsWaitInvIff | ZBOSS_v1.0_src/common/zb_bufpool.c:203-249 | freeing keeps "waiters only while the quota is used up" iff no waiter is passed over for the receiver |
| PoolModel.AskKeepsWaitInv | ZBOSS_v1.0_src/common/zb_bufpool.c:155-189 | asking for a buffer keeps it |
| PoolModel.StepKeepsWaitInvIff | ZBOSS_v1.0_src/common/zb_bufpool.c:110-249 | a step keeps "waiters only while the quota is used up" iff it does not pass over a waiter for the receiver |
| PoolModel.RunKeepsWaitInv | ZBOSS_v1.0_src/common/zb_bufpool.c:110-249 | so does any run in which no free passes over a waiter, whether or not callbacks find room |
| PoolModel.StepServesInOrderIff | ZBOSS_v1.0_src/common/zb_bufpool.c:155-249 | a step serves the longest waiting request first and loses none, iff it does not free a buffer for a waiter while the callback queue is full |
| PoolModel.TurnsAddUp | ZBOSS_v1.0_src/common/zb_bufpool.c:155-249 | over a run that passes over nobody, those served, those waiting in the end and the turns lost add up to those who waited and the requests accepted |
| PoolModel.RunServesInOrderIff | ZBOSS_v1.0_src/common/zb_bufpool.c:155-249 | over any run in which no free passes over a waiter, served requests followed by those still waiting are the waiting ones followed by the accepted ones, in order, iff no turn of a waiter comes with the callback queue full |
| PoolModel.FullQueueLosesWaiter | ZBOSS_v1.0_src/common/zb_bufpool.c:225-240 | a concrete state where a waiter leaves its queue unscheduled because the callback queue is full |
| PoolModel.ReceiverClaimStrandsWaiter | ZBOSS_v1.0_src/common/zb_bufpool.c:225-231 | a concrete state where the receiver's claim leaves a waiter behind and the next request overtakes it |
| BufferPools.FreeList.constructor | ZBOSS_v1.0_src/common/zb_bufpool_init.c:64-86 | the loop links all buffers in order, the last one to nothing |
| BufferPools.FreeList.Pop | ZBOSS_v1.0_src/common/zb_bufpool.c:121-128 | takes the first linked buffer |
| BufferPools.LinkedIsDistinct | ZBOSS_v1.0_src/common/zb_bufpool_init.c:64-86 | the free list cannot link a buffer twice |
| BufferPools.FreeList.Push | ZBOSS_v1.0_src/common/zb_bufpool.c:221-222 | the list of free buffers gains the buffer in front |
| BufferPools.WaitLists.AddWaiter | ZBOSS_v1.0_src/common/zb_bufpool.c:162-186 | a waiter entry moves from the free stack to the tail of its queue, if there is one |
| BufferPools.WaitLists.TakeWaiter | ZBOSS_v1.0_src/common/zb_bufpool.c:225-240 | the oldest waiter comes off, its entry goes back to the free stack |
| BufferPools.Buffers.GetBuf | ZBOSS_v1.0_src/common/zb_bufpool.c:110-141 | gives the first free buffer iff the quota allows |
| BufferPools.BufferPool.constructor | ZBOSS_v1.0_src/common/zb_bufpool_init.c:64-86 | all buffers free, nobody waiting |
| BufferPools.BufferPool.GetBufDelayed | ZBOSS_v1.0_src/common/zb_bufpool.c:155-189 | the operation in memory equals the pure one, errors included: which buffer is granted, to which kind, and who waits |
| BufferPools.BufferPool.FreeBuf | ZBOSS_v1.0_src/common/zb_bufpool.c:203-249 | the operation in memory equals the pure one: who gets the buffer, or that it is free |
| BufferWindows.StaysInsideIff | ZBOSS_v1.0_src/common/zb_bufpool.c:258-345 | an operation its own assertion admits leaves the window inside the array, iff it is not a right allocation that does not fit behind the offset |
| BufferWindows.RightAllocationRunsOff | ZBOSS_v1.0_src/common/zb_bufpool.c:292-299 | a concrete right allocation that the assertion admits and that runs off the array |
| BufferWindows.RunStaysInside | ZBOSS_v1.0_src/common/zb_bufpool.c:258-345 | any sequence of operations, right allocations fitting, stays inside |
| BufferWindows.Buffer.AllocLeft | ZBOSS_v1.0_src/common/zb_bufpool.c:277-290 | keeps every payload byte, moving it if there is no room in front, and no other byte changes |
| BufferWindows.Buffer.AllocRight | ZBOSS_v1.0_src/common/zb_bufpool.c:292-299 | keeps every payload byte, under the precondition the assertion omits |
| BufferWindows.Buffer.CutLeft | ZBOSS_v1.0_src/common/zb_bufpool.c:314-322 | leaves the payload without its first bytes |
| BufferWindows.Buffer.CutRight | ZBOSS_v1.0_src/common/zb_bufpool.c:324-328 | leaves the payload without its last bytes |
| BufferWindows.Buffer.InitialAlloc | ZBOSS_v1.0_src/common/zb_bufpool.c:258-267 | places a window of the asked length in the middle of the array |
| BufferWindows.Buffer.AssignParam | ZBOSS_v1.0_src/common/zb_bufpool.c:301-312 | puts the parameter at the tail and keeps the payload byte for byte, moving it no further left than needed |
| BufferWindows.Buffer.GetTail | ZBOSS_v1.0_src/common/zb_bufpool.c:341-346 | finds the tail clear of the payload |
| BufferWindows.Buffer.PushAndStrip | ZBOSS_v1.0_src/common/zb_bufpool.c:277-322 | writing a header in front and cutting it off gives back the payload |
| BufferWindows.Buffer.ParamSurvivesCuts | ZBOSS_v1.0_src/common/zb_bufpool.c:301-328 | an assigned parameter survives cuts on both sides |
| ApsFrames.PackFields | ZBOSS_v1.0_src/include/zb_aps.h:564-580 | the getters read back each of the six fields of a frame control |
| ApsFrames.FieldsPack | ZBOSS_v1.0_src/include/zb_aps.h:564-580 | a frame control is determined by its fields |
| ApsFrames.SettersAreIndependent | ZBOSS_v1.0_src/include/zb_aps.h:564-568 | the type and delivery setters or into their own field and touch no other bit |
| ApsFrames.FlagSettersAreIndependent | ZBOSS_v1.0_src/include/zb_aps.h:570-577 | so do the ack-format and ack-request setters |
| ApsFrames.RequestFcFields | ZBOSS_v1.0_src/aps/aps_main.c:160-263 | the frame control of a request carries its delivery mode, and asks for an acknowledgement iff the option is set and the mode is not group |
| ApsFrames.RequestFcOctet | ZBOSS_v1.0_src/include/zb_aps.h:597-603 | as a number: delivery mode 3 for group mode, 2 for one of the four broadcast addresses in short mode, else 0; 64 more for an acknowledgement request |
| ApsFrames.DataHeaderOctets | ZBOSS_v1.0_src/aps/aps_main.c:429-453 | the octets of a data header one by one: nine with a group, eight with an endpoint, low octets first |
| ApsFrames.ParsedOctets | ZBOSS_v1.0_src/aps/aps_main.c:714-740 | which octet is parsed into which field in the three formats, and which fields stay the caller's |
| ApsFrames.DataRoundTrip | ZBOSS_v1.0_src/aps/aps_main.c:384-468 | for every request and payload, parsing the filled header returns all its fields |
| ApsFrames.ParseWritten | ZBOSS_v1.0_src/aps/aps_main.c:690-746 | parsing returns exactly the fields the frame carries and leaves the rest of the caller's structure alone |
| ApsFrames.DataHeaderSize | ZBOSS_v1.0_src/include/zb_aps.h:610-622 | the size macro equals the bytes written for a request |
| ApsFrames.AckHeaderSizeIff | ZBOSS_v1.0_src/include/zb_aps.h:610-622 | for an acknowledgement it does iff the acknowledged frame was not a command |
| ApsFrames.AckRoundTrip | ZBOSS_v1.0_src/aps/aps_main.c:904-970 | parsing an acknowledgement gives the received counter and cluster with the endpoints swapped |
| ApsFrames.AckOctets | ZBOSS_v1.0_src/aps/aps_main.c:904-965 | the octets of an acknowledgement one by one: two for a command, else eight with the endpoints swapped |
| ApsFrames.AckMatchesIff | ZBOSS_v1.0_src/aps/aps_main.c:1032-1049 | fill, parse, acknowledge, parse: the result matches an entry iff the entry is this very destination, counter, cluster and endpoint pair |
| ApsFrames.AckMatchesOnlyItsEntry | ZBOSS_v1.0_src/aps/aps_main.c:1000-1049 | with fewer than 256 frames between them, the acknowledgement of one frame matches what was saved for it and for no other |
| ApsFrames.FillHeader | ZBOSS_v1.0_src/aps/aps_main.c:384-468 | the payload is kept behind the header and the counter advances; the header is that of the request found in the tail after the payload has been moved, and of the request given if header and payload stay clear of it |
| ApsFrames.TailKeptIff | ZBOSS_v1.0_src/aps/aps_main.c:384-468 | making room and writing a header keep the request in the tail, for all contents, iff the header fits in front of the payload or both end before the tail |
| ApsFrames.BuildAck | ZBOSS_v1.0_src/aps/aps_main.c:904-970 | the moving-pointer writes produce the acknowledgement frame |
| ApsFrames.OwnBytesOnlyIff | ZBOSS_v1.0_src/aps/aps_main.c:690-746 | the parser depends on nothing behind the packet iff the packet is as long as its frame control announces |
| ApsFrames.ParseHeader | ZBOSS_v1.0_src/aps/aps_main.c:690-746 | the moving-pointer reads compute the pure parse of what starts at the window, and of the payload if that is long enough |
| ApsRetransmission.RunKeepsInv | ZBOSS_v1.0_src/aps/aps_main.c:495-562 | over any interleaving: one alarm per occupied slot, the network layer holding exactly the buffers of the two unconfirmed phases, at most MAX_FRAMES - 1 repeats, no buffer lost or returned twice |
| ApsRetransmission.SendKeepsInvIff | ZBOSS_v1.0_src/aps/aps_main.c:974-1023 | a send keeps the invariant iff a slot before the last is free |
| ApsRetransmission.AckKeepsInvIff | ZBOSS_v1.0_src/aps/aps_main.c:1026-1071 | an acknowledgement keeps the invariant iff it matches nothing or an entry neither free nor already acknowledged |
| ApsRetransmission.ConfirmKeepsInv | ZBOSS_v1.0_src/aps/aps_main.c:495-562 | a network confirm keeps it |
| ApsRetransmission.ConfirmFindsSlot | ZBOSS_v1.0_src/aps/aps_main.c:527-545 | a network confirm always finds its slot, in an unconfirmed phase: the assertion there holds |
| ApsRetransmission.TimerKeepsInv | ZBOSS_v1.0_src/aps/aps_main.c:1094-1144 | an alarm keeps it |
| ApsRetransmission.HandOverOnlyWhenConfirmed | ZBOSS_v1.0_src/aps/aps_main.c:1114-1135 | the network layer is handed a buffer only by a send or by the alarm of a confirmed entry with tries left, never one it holds already |
| ApsRetransmission.QuietMeansAllReturned | ZBOSS_v1.0_src/aps/aps_main.c:1074-1091 | from the initial table, whenever all slots are free again every buffer has come back exactly as often as it was handed in, and nothing is pending |
| ApsKeys.RunKeepsNumbered | ZBOSS_v1.0_src/aps/aps_main.c:974-1023 | entries keep the counter of their frame and no two are the same frame |
| ApsKeys.AckFindsItsSlot | ZBOSS_v1.0_src/aps/aps_main.c:1026-1071 | after any run with fewer than 256 frames since the oldest entry, the acknowledgement of the frame in a slot is applied to that slot |
| ApsKeys.SendStoresKey | ZBOSS_v1.0_src/aps/aps_main.c:990-1012 | what a send stores in the first free slot: sent, the key its own acknowledgement will match, its buffer, all of its tries and no repeat; other slots stay |
| ApsTransitions.SendAsks | ZBOSS_v1.0_src/aps/aps_main.c:1010-1023 | besides, the frame goes to the network layer under an alarm for its slot, for slot 0 if none was free, or is reported as not sent if it took the last slot; counter and frame number go up by one |
| ApsTransitions.ConfirmDecides | ZBOSS_v1.0_src/aps/aps_main.c:527-562 | a network confirm frees a buffer no slot has, finishes an acknowledged frame, and marks any other as confirmed |
| ApsTransitions.AckDecides | ZBOSS_v1.0_src/aps/aps_main.c:1049-1071 | an acknowledgement marks the first entry it matches while the network layer has the frame, and finishes it otherwise, freeing the buffer in the short format only |
| ApsRefusals.RefusedIsLeftOut | ZBOSS_v1.0_src/aps/aps_main.c:256-277 | a send whose alarm or callback is refused is the same send without it |
| ApsRefusals.RefusedInTimer | ZBOSS_v1.0_src/aps/aps_main.c:1094-1144 | and so is an alarm |
| ApsScenarios.GivesUpAfterRounds | ZBOSS_v1.0_src/aps/aps_main.c:1094-1144 | in rounds of one network confirm and one alarm, with nothing in between, an entry is repeated in each round and in the one that uses up its tries reported as not acknowledged (any run: ApsOutcomes.GivesUpInAnyRun) |
| ApsScenarios.AckThenConfirm | ZBOSS_v1.0_src/aps/aps_main.c:495-562 | an entry acknowledged before the network confirm is reported once, as acknowledged, when the confirm comes |
| ApsScenarios.AckAndConfirmCommuteIff | ZBOSS_v1.0_src/aps/aps_main.c:1026-1091 | whether the acknowledgement or the network confirm comes first makes no difference, iff the acknowledgement has the full format |
| ApsScenarios.FullTestIsOneEarly | ZBOSS_v1.0_src/aps/aps_main.c:1017-1021 | starting empty, the request taking the last slot is refused yet kept without alarm, and the next is sent although nothing records it |
| ApsScenarios.SecondAckFinishesEarly | ZBOSS_v1.0_src/aps/aps_main.c:1054-1063 | a second acknowledgement finishes an entry whose buffer the network layer still holds |
| ApsScenarios.ShortAckDependsOnOrder | ZBOSS_v1.0_src/aps/aps_main.c:1074-1091 | a concrete frame whose buffer a short acknowledgement frees in one order of events and confirms in the other |
| ApsRefusals.SendRoomIff | ZBOSS_v1.0_src/aps/aps_main.c:256-277 | a send that is due a slot keeps the invariant iff both its alarm and its hand-over find room |
| ApsRefusals.ConfirmRoomIff | ZBOSS_v1.0_src/aps/aps_main.c:495-562 | a network confirm keeps it iff the report of an acknowledged frame finds room |
| ApsRefusals.AckRoomIff | ZBOSS_v1.0_src/aps/aps_main.c:1026-1091 | an acknowledgement that would keep it does so iff the report of a finished data frame finds room |
| ApsRefusals.TimerRoomIff | ZBOSS_v1.0_src/aps/aps_main.c:1094-1144 | an alarm keeps it iff, when it gives up, its report finds room, and otherwise its next alarm does and the hand-over of a confirmed frame |
| ApsOutcomes.StuckForGood | ZBOSS_v1.0_src/aps/aps_main.c:1094-1144 | an entry whose alarm was refused stays: over any run that applies no acknowledgement to it, it is neither repeated nor given up |
| ApsOutcomes.StepMoves | ZBOSS_v1.0_src/aps/aps_main.c:974-1144 | every step fills at most one slot, with the next frame, ends at most one, with one entry in the log, and leaves all others to their frames |
| ApsOutcomes.RunAccounts | ZBOSS_v1.0_src/aps/aps_main.c:974-1144 | over any run: a requested frame is in one slot and not reported, or in none and reported once; no other frame is in either |
| ApsOutcomes.OnceEach | ZBOSS_v1.0_src/aps/aps_main.c:974-1144 | so from the initial table each occupancy finishes exactly once |
| ApsOutcomes.OwnAlarm | ZBOSS_v1.0_src/aps/aps_main.c:1094-1144 | the alarm of a waiting entry takes one try and, if confirmed, sends it again, changing nothing else; with the last try gone it reports it as not acknowledged |
| ApsOutcomes.GoneStaysGone | ZBOSS_v1.0_src/aps/aps_main.c:1074-1091 | a frame that was reported is in no slot and is not reported again, over any run |
| ApsOutcomes.GivesUpInAnyRun | ZBOSS_v1.0_src/aps/aps_main.c:1094-1144 | in any run in which no acknowledgement is applied to it, each alarm that finds a frame confirmed repeats it and takes a try, each but the last that finds it unconfirmed takes a try without repeating it, and it is in its slot, unreported, exactly until its tries are used up, and then reported once, as not acknowledged |
| ApsOutcomes.SentFrameGivesUp | ZBOSS_v1.0_src/aps/aps_main.c:1006-1144 | from its request on, a frame no acknowledgement is applied to has MAX_FRAMES tries: if w of them are lost to alarms before the network confirm, it is given up, and reported once, at exactly the (MAX_FRAMES - w)-th alarm that finds it confirmed, having been repeated at all those before |
| ApsOutcomes.EarlyAlarmWastesTry | ZBOSS_v1.0_src/aps/aps_main.c:1102-1112 | such a loss: an alarm right after the send leaves one try less and nothing repeated |
| RetransmitTables.RetransmitTable.constructor | ZBOSS_v1.0_src/aps/aps_main.c:90-110 | the table starts with all slots free |
| RetransmitTables.RetransmitTable.DataRequest | ZBOSS_v1.0_src/aps/aps_main.c:256-277 | the send in place equals the transition, whether its alarm and its callback find room or not |
| RetransmitTables.RetransmitTable.SaveAckData | ZBOSS_v1.0_src/aps/aps_main.c:974-1023 | the do-while loop gives the first free slot the entry of the frame, which has MAX_FRAMES tries (SendStoresKey); the full test is as written |
| RetransmitTables.RetransmitTable.DataConfirm | ZBOSS_v1.0_src/aps/aps_main.c:495-562 | the loop in place equals the transition, whether what it asks for finds room or not |
| RetransmitTables.RetransmitTable.AckFrameHandle | ZBOSS_v1.0_src/aps/aps_main.c:1026-1071 | the loop in place equals the transition, whether what it asks for finds room or not |
| RetransmitTables.RetransmitTable.AckTimer | ZBOSS_v1.0_src/aps/aps_main.c:1094-1144 | the callback in place equals the transition, whether what it asks for finds room or not |
| RetransmitTables.RetransmitTable.Finish | ZBOSS_v1.0_src/aps/aps_main.c:1074-1091 | frees the slot, gives the buffer back and cancels one alarm |
| GroupModel.AddGroupSpec | ZBOSS_v1.0_src/aps/aps_bind.c:268-316 | an endpoint is added at the end of its group unless present; TABLE_FULL iff it is new and there is no room; other groups are untouched; limits and uniqueness kept |
| GroupModel.RunKeepsInv | ZBOSS_v1.0_src/aps/aps_main.c:346-374 | every accepted message is through or pending in order, deliveries are exactly one per endpoint so far, at most one activation and only for an active message, no active message means an empty queue; whatever requests for buffers are refused |
| GroupModel.DropsNothingIff | ZBOSS_v1.0_src/aps/aps_main.c:346-374 | over any run nothing is dropped iff no message arrives at a full queue, and then all messages are accepted, in order of arrival |
| GroupModel.ArrivalsAddUp | ZBOSS_v1.0_src/aps/aps_main.c:346-374 | over any run each message that arrives is accepted or dropped, once |
| GroupModel.DroppedWhenFull | ZBOSS_v1.0_src/aps/aps_main.c:349-353 | and as many are dropped as find the queue full |
| GroupModel.PassUpKeepsInv | ZBOSS_v1.0_src/aps/aps_main.c:750-805 | one call of the callback keeps this |
| GroupModel.ArriveKeepsInv | ZBOSS_v1.0_src/aps/aps_main.c:346-374 | an arriving message keeps this; one that becomes active has its activation iff that was granted |
| GroupModel.KeepsGoingIff | ZBOSS_v1.0_src/aps/aps_main.c:750-805 | the passing up goes on iff the request for the next buffer is granted or nothing is left to do |
| GroupModel.GrantedRunKeepsGoing | ZBOSS_v1.0_src/aps/aps_main.c:750-805 | with every request granted, an active message always has its next activation |
| GroupModel.StallIsForGood | ZBOSS_v1.0_src/aps/aps_main.c:750-805 | after one refusal, over any run, nothing more is delivered and no message gets through |
| GroupModel.ExactlyOnce | ZBOSS_v1.0_src/aps/aps_main.c:750-805 | a message that is through was received by each endpoint of its group once, in table order, and by nobody else |
| GroupModel.DrainDeliversEverything | ZBOSS_v1.0_src/aps/aps_main.c:750-805 | with no new messages and no refusals, a computed number of activations passes up everything accepted, first come first served, and leaves none pending |
| GroupLayers.GroupLayer.constructor | ZBOSS_v1.0_src/common/zb_init.c:87 | the zeroed layer satisfies the invariant |
| GroupLayers.GroupLayer.AddGroupRequest | ZBOSS_v1.0_src/aps/aps_bind.c:268-316 | the nested loops in place equal the pure insertion |
| GroupLayers.GroupLayer.PassUpGroupBuf | ZBOSS_v1.0_src/aps/aps_main.c:346-374 | the arrival in place: accepted iff the queue has room, to become active if nothing is and else last in the queue; dropped otherwise, nothing else changing |
| GroupLayers.GroupLayer.PassGroupMsgUp | ZBOSS_v1.0_src/aps/aps_main.c:750-805 | the callback in place, over the ring buffer, equals the transition |

## Left out

- MAC, transceiver, transport, hardware timers and interrupts: the interrupt break of both scheduler loops is a run whose environment ends early; starting the hardware timer is not modelled.
- The bodies of NWK, ZDO and AF: they are the environment, which confirms, indicates and supplies addresses.
- Security: auxiliary headers, command frames (`zb_aps_send_command`) and address types that only they use.
- Fragmentation and extended headers, which the source announces but does not implement.
- Choosing the destination of a data request: the request carries the short address the binding table, the address table or the caller gave.
- The queues in front of acknowledgements and of local copies of group messages (`ack_q`, `local_dup_q`): more ring buffers of the kind modelled.
- The PAN-id table, the AIB accessors, the MAC and transmit callback queues, pooled lists and lookups by reference: easy or repeated members.
- The union of buffer header and free-list link: separate fields here, and the bytes of a buffer are separate from the pool that hands it out.
- The remaining list macros (remove head, remove tail, insert head of a single-linked list): not used by the modelled code.
- The bit vector of used manufacturer prefixes: an array of booleans.
- AddressTables.AddressTable.DelShortSorted: has the corrected move length; the text as written is in `AddressAsWritten`.
- AddressTables.AddressTable.UpdatePair: asks for a short address other than 0xFFFF, which the source reserves for an unknown one, and for no conflict of two locked entries, which it asserts; for the zero compressed long address, which entries without one carry, the long lookup may find another of those.
- AddressTables.AddressTable.LockRef: asks for fewer than 15 locks, the overflow the source asserts against in a 4-bit field.
- BindingTables.BindingTable.UnbindRequest: asks that an empty table holds no stale row of the key or that the address mode is invalid; `UnbindOnEmptyTable` is the code without that, up to the counter it takes below zero, and not the move past the arrays that may follow.
- BufferWindows.Buffer.AllocRight: has the precondition its assertion omits.
- ApsFrames.FillHeader: the request is any function of the bytes in the tail, so the layout of its structure is not modelled; for a header that itself reaches into the request it promises only that the payload is kept.
- GroupLayers.GroupLayer.PassGroupMsgUp: whether a request for a buffer is granted is a parameter; a copy counts as delivered when its indication is scheduled, for which the queue is assumed to have room.
- The two fields of a retransmission slot that number its frame and count its repeats are records of the run, not fields of the source.
- ApsFrames.ParseHeader: asks that its reads stay inside the array of the buffer; a packet shorter than they are is parsed as the source does.
