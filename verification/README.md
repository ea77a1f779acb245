# uDepot and SALSA, modelled in Dafny

uDepot is a key-value store for flash devices. It writes records to an append-only log of
segments, keeps a hopscotch hash table from key fingerprints to log positions, relocates live
records when it reclaims segments, and rebuilds the table from the log after a crash. SALSA is
the layer below it that allocates segments, throttles writers and collects garbage. This project
models the parts of both in which the hard guarantees live, and proves those guarantees for every
input, every interleaving or every reachable state. `dafny verify dfyconfig.toml` checks it.

## What is modelled

**The store as a protocol.** `KvStore` gives the log, the key map and the counters as atomic
actions: opening a segment, reserving an extent, writing a record, entering it in the map,
relocating one. `KvRuns` proves what every action keeps (segments, extents that tile them, a map
that agrees with the log). `KvRecovery` proves when replaying the log gives the map back, and
`KvRestart` what the recovery loops over a device make of it, and when they refuse. `KvAccounting`
proves that counters and invalidations are exact, `KvGc` when a collection vacates its segment,
and that it changes no value. `KvHistory` proves what the store holds after any run: for every key
the value of the put that entered the map last, which is what a get returns. `KvLimits` has concrete
runs in which recovery or a collection goes wrong.

**The table and its threads.** `Hopscotch` and `HopMap` are the hash table, with the source's
loops over an array, and `DirectoryGrow` is the copy into larger tables. `KvThreads` has puts and GC
as threads that drop the bucket lock while they read a candidate record and revalidate afterwards.
Its state has no key map, only a table of fingerprints and records on the device. That the table
always stands for one key map, and that every step acts on it as one action of `KvStore`, is proved
there; `KvConcurrency` draws the consequences for whole runs, for CREATE and for GET, `KvHoles` has a
run in which they fail, and `KvTableGc` is the collector's walk through the table.

**Buffers and records.** `MbuffSpec`, `MbuffLinks`, `Mbuff` and `MbuffReaders` are the chunked byte
string: two linked lists of node objects, and what every relinking does to them as lists of
values, with iterators, copies and comparisons. `Codec` and `PutRecord` are the record a put
writes and what a get reads back, `PutRounds` the rounds of a put with its lookups.

**Segments.** `Segments` and `SegmentGc` are the segment allocator and the N-bin collector with
its delay queues. **Locks.** `BigReader` and `Sleeping` are the big-reader lock, one step per access
to a counter or the flag, and the two ways refused readers sleep. **Hashing.** `Streaming`, `XxHash`
and `Xxh3` are hashing in pieces, `XxDigests` has digests of particular strings. **Arithmetic.**
`Striping`, `IoVectors`, `Throttle`, `Capacity` and `Streams` are the layouts, loops and budgets with
exact guarantees. `Arith`, `Octets` and `Extents` are shared vocabulary.

## What turned out false

Each of these has a lemma with a concrete input or an exact condition.

- Recovery refuses to start if and only if no segment was opened or some open segment has no
  written first extent, even if every put has settled (`KvRestart.RecoveryOfRuns`,
  `KvLimits.OpenSegmentStopsRecovery`). Where it starts, it restores the map if and only if every
  mapped record can be reached by the segment scan and no undecided record is later than the mapped
  one (`KvRecovery.RecoveryIsExact`). It fails for a CREATE that was refused after its record was
  written (`KvLimits.RefusedPutIsRecovered`), for a completed put behind an extent that was reserved
  and never written (`KvLimits.PutBehindUnwrittenExtentIsLost`), and for records that GC copied
  (`KvLimits.GcCopyIsResurrected`).
- A collection that reports success is sure to vacate its segment if and only if, when it started,
  no mapped record was behind an extent that was never written (`KvGc.GcCondition`,
  `KvLimits.GcLeavesRecordBehind`).
- A lookup by fingerprint stops at the first unused slot, so a hole hides entries. A displacement
  leaves a hole exactly when it fails after moving an entry, or succeeds for a REPLACE that is
  then rejected (`KvThreads.DirtyLeavesHole`, `KvThreads.HolesComeFromDisplacement`,
  `Hopscotch.DisplacementCanHide`). With deleted entries about, exactly when it uses up an unused
  slot (`Hopscotch.TryShiftBreaks`). The table stands for a key map throughout a run if and only if
  no step leaves a hole (`KvConcurrency.CleanIsExact`); otherwise a get may miss a mapped key and a
  key may be created twice (`KvHoles.HoleMisleads`).
- The header keeps key and value sizes exactly when they fit 16 and 32 bits
  (`PutRecord.KeyReadsBack`, `PutRecord.ValueReadsBack`), and a header of an empty key and an empty
  value ends a collection (`PutRecord.RecordableReadsBack`). A retry finds room for header and suffix
  again if the first and last node hold bytes of the key and value (`PutRecord.Attempt`).
- Padding can fail with memory at hand, because the code asks for the padding less the free bytes and
  the allocator takes the free bytes off once more. It succeeds if and only if it fits without a new
  buffer, or is more than twice the free bytes and the buffer then added is enough
  (`PutRecord.PaddingFits`, `PutRecord.PaddingCanFail`).
- The parts a length is divided into add up to it if and only if the shares, computed modulo 2^64,
  reach it, and so whenever no product wraps (`Capacity.Scale`, `Capacity.ScaleCanWrap`).
- Linear mapping is injective exactly when every device's ranges are consecutive
  (`Capacity.LinearMapIsInjective`).

## Model

| member | source | states |
|---|---|---|
| `HopTable.HopMap.Lookup` | src/include/uDepot/lsa/udepot-map.hh:53-84 | the first match before the first unused slot, else a slot to insert into, else no room |
| `HopTable.HopMap.NextFree` | src/include/uDepot/lsa/udepot-map.hh:86-98 | the first slot of the bucket that can take an entry, or none |
| `HopTable.HopMap.Next` | src/include/uDepot/lsa/udepot-map.hh:100-115 | the next match in the bucket, and that none lies in between |
| `HopTable.HopMap.LookupPba` | src/include/uDepot/lsa/udepot-map.hh:117-133 | the slot of the bucket that holds an extent, or that none does |
| `HopTable.HopMap.LookupCommon` | src/uDepot/udepot-lsa.cc:432-448 | the first candidate not visited yet, or that all matches were visited, or the lookup's failure |
| `HopTable.HopMap.TryShift` | src/include/uDepot/lsa/udepot-map.hh:135-184 | the displacement loops compute exactly the displacement function that the lemmas below are about, with deleted entries about |
| `HopTable.HopMap.CopyEntry` | src/uDepot/lsa/udepot-directory-map.cc:300-325 | copying an entry, deleted or not, during a grow adds exactly that entry and leaves no hole; it overwrites another exactly when the bucket is full and holds the fingerprint, and does neither as long as the bucket has room |
| `DirectoryGrow.DirSplits` | src/include/uDepot/lsa/udepot-directory-map.hh:121-125 | the entries of one table go to two tables of the larger directory that get no others |
| `DirectoryGrow.DirIndexIs` | src/include/uDepot/lsa/udepot-directory-map.hh:121-125 | the table of a hash is its leading bits: the masked hash lies in the table's share of the range, and the shares fill it |
| `DirectoryGrow.Grow` | src/uDepot/lsa/udepot-directory-map.cc:287-330 | a grow never fails, displaces or overwrites: the two tables hold exactly the live entries of the old one, each in the table its fingerprint selects, all of them found again |
| `Hopscotch.LookupComplete` | src/include/uDepot/lsa/udepot-map.hh:53-84 | without holes a lookup finds something exactly when the bucket holds the fingerprint |
| `Hopscotch.HoleHides` | src/include/uDepot/lsa/udepot-map.hh:63-70 | an entry behind an unused slot is never returned |
| `Hopscotch.TryShiftKeeps` | src/include/uDepot/lsa/udepot-map.hh:135-184 | displacement keeps the table's live entries, whether it succeeds or not and with deleted entries about, and a reported slot is the bucket's first free one |
| `Hopscotch.TryShiftHoles` | src/include/uDepot/lsa/udepot-map.hh:135-184 | without deleted entries, the freed slot is the only hole after success; a failure leaves no hole exactly when it left the table alone |
| `Hopscotch.TryShiftBreaks` | src/include/uDepot/lsa/udepot-map.hh:362-389 | with deleted entries, displacement hides an entry exactly if it used up an unused slot |
| `Hopscotch.TryShiftHops` | src/include/uDepot/lsa/udepot-map.hh:135-184 | the displacement fails at once exactly if no slot from 32 to 2047 behind the home, and more than 33 before the table's end, is free; else it starts from the nearest such slot and is a chain of hops: each exchanges the lowest of the 31 entries before the free slot that can move with the first free slot of its bucket, until the free slot is in the bucket or none can move |
| `Hopscotch.TryShiftFails` | src/include/uDepot/lsa/udepot-map.hh:362-389 | a displacement that fails found no slot in reach, or leaves a table in which every entry within 31 slots before the free one has a bucket without a free slot |
| `Hopscotch.DisplacementCanHide` | src/include/uDepot/lsa/udepot-map.hh:135-184 | a table with 128 homes in which a failed displacement makes an uninvolved entry invisible |
| `Extents.GrainSplits` | src/uDepot/udepot-lsa.cc:1451-1467 | comparing segment and offset is what the code does with grain numbers |
| `KvStore.Grains` | src/include/uDepot/udepot-lsa.hh:107-109 | the fewest whole grains that hold header, key, value and suffix |
| `KvRuns.ReserveKeepsExtents` | salsa/src/frontends/usalsa++/allocator.c:47-64 | a reservation takes fresh grains, and the extents of a segment stay disjoint and without gaps |
| `KvRuns.StepKeepsInv` | src/uDepot/udepot-lsa.cc:1237-1560 | every action keeps segments, extents, records, phases and map in agreement: the live extents are exactly the mapped ones |
| `KvHistory.RecordIsWritten` | src/uDepot/udepot-lsa.cc:1410-1435 | every record on the device, in every state, has the key and value of an earlier write, and without GC that write was at this very place |
| `KvHistory.RunRecordIsWritten` | src/uDepot/udepot-lsa.cc:1410-1435 | the same of the actions of every run of the protocol |
| `KvHistory.LastPut` | src/uDepot/udepot-lsa.cc:1336-1386 | the value a mapped key has is the one written by the put that entered the map last for that key |
| `KvHistory.MappedIsInstalled` | src/uDepot/udepot-lsa.cc:1336-1386 | a key is unmapped exactly if no put of it entered the map so far |
| `KvHistory.OutcomePermits` | src/uDepot/udepot-lsa.cc:1336-1386 | a put enters the map exactly if the operation allows it for a present or absent key and its record is later than the mapped one |
| `KvHistory.ViewIsMeaning` | src/uDepot/udepot-lsa.cc:1237-1560 | the values the log and the map hold together are those of a plain map from keys to values on which every put that is allowed sets its key and nothing else does anything |
| `KvHistory.OpensNumber` | src/uDepot/udepot-lsa.cc:951-958 | the allocation number is the number of segments opened, and each segment keeps the one it was opened with |
| `KvHistory.DrainIsFinal` | salsa/src/frontends/usalsa++/allocator.c:159-180 | nothing is ever reserved again in a segment that was drained |
| `KvHistory.PutGoesThrough` | src/uDepot/udepot-lsa.cc:1388-1560 | wherever a segment has room for header, key, value and suffix, and the key is unmapped or its record is earlier, an undisturbed put goes through and changes the value of that key only |
| `KvRecovery.OrderIsTotal` | src/uDepot/udepot-lsa.cc:1451-1467 | the order by segment timestamp and position is total, and without GC it is the order the code tests |
| `KvRecovery.StepKeepsOrder` | src/uDepot/udepot-lsa.cc:1363-1383 | without GC, the mapped record of a key is later than all its superseded and stale ones, after every action |
| `KvRecovery.ReplayKeepsLatest` | src/uDepot/udepot-lsa.cc:612-691 | replaying records in any order leaves every key at its latest record |
| `KvRecovery.ScanReads` | src/uDepot/lsa/udepot-directory-map.cc:526-583 | the scan of a segment reads exactly the records that no unwritten extent precedes |
| `KvRecovery.ScanStaysInside` | src/uDepot/lsa/udepot-directory-map.cc:526-583 | the scan takes only records that are written and end before the segment's metadata |
| `KvRecovery.RecoveredKey` | src/uDepot/udepot-lsa.cc:612-691 | per key, recovery finds the mapped record if it was read, or a later one of a put still in flight or refused |
| `KvRecovery.RecoveryIsExact` | src/uDepot/udepot-lsa.cc:612-691 | replay in any order gives the live map if and only if the state is recoverable |
| `KvRestart.RecoverSegment` | src/uDepot/lsa/udepot-directory-map.cc:522-583 | the record loop replays what the scan reads, and its error is cleared exactly if the first header is valid |
| `KvRestart.CrashRecovery` | src/uDepot/lsa/udepot-directory-map.cc:484-612 | the loop over the segments ends in ENODATA, in ENOENT, or with the replay of all records read and the latest timestamp |
| `KvRestart.RecoveryOfRuns` | src/uDepot/lsa/udepot-directory-map.cc:484-612 | in every state of every run, recovery fails exactly if no segment was opened or an open one has no written first extent; otherwise it restores the allocation number and, without GC, the map if and only if the state is recoverable |
| `KvRestart.RecoveryOfSettledRuns` | src/uDepot/udepot-lsa.cc:1493-1556 | with no put in flight, none refused and every extent written, recovery gives exactly the live map if and only if a segment was opened and none is without an extent |
| `KvLimits.OpenSegmentStopsRecovery` | src/uDepot/lsa/udepot-directory-map.cc:522-583 | a run of one completed put and an opened segment after which recovery fails |
| `KvLimits.RefusedPutIsRecovered` | src/uDepot/udepot-lsa.cc:1336-1345 | a run after which recovery installs the value of a refused CREATE |
| `KvLimits.PutBehindUnwrittenExtentIsLost` | src/uDepot/lsa/udepot-directory-map.cc:530-540 | a run after which recovery misses a put that had succeeded |
| `KvLimits.GcCopyIsResurrected` | src/uDepot/udepot-lsa.cc:847-865 | a run after which recovery prefers a relocated copy to a later put |
| `KvLimits.GcLeavesRecordBehind` | src/uDepot/udepot-lsa.cc:766-769 | a run after which a collection reports success and leaves a mapped record in its segment |
| `KvAccounting.RunsAccount` | src/uDepot/udepot-lsa.cc:1241-1267 | in every state of every run, key count and byte counts are those of the mapped records, and every extent given up was invalidated exactly once with its allocated size |
| `KvAccounting.PutCounts` | src/uDepot/udepot-lsa.cc:1241-1267 | by how much the three counters change when a put enters the map, for a new key and for one whose record it replaces |
| `KvAccounting.CountersNeverUnderflow` | src/include/uDepot/uDepot.hh:67-75 | the subtractions of the counters never go below zero |
| `KvThreads.PresentIsMapped` | src/uDepot/udepot-lsa.cc:1145-1155 | an entry that survived revalidation is the one the searched key maps to at that moment |
| `KvThreads.AbsentIsUnmapped` | src/uDepot/udepot-lsa.cc:1098-1104 | when the search ends without a candidate, the key is mapped to nothing at that moment |
| `KvThreads.PassesOver` | src/uDepot/udepot-lsa.cc:1145-1157 | a candidate that did not match, or whose entry is gone, never needs to be looked at again |
| `KvThreads.EntryHasSize` | src/include/uDepot/lsa/udepot-map.hh:194-210 | every entry of the table has the allocated size of the record it points to, or 2047 if that is larger |
| `KvThreads.StepFollows` | src/uDepot/udepot-lsa.cc:1085-1386 | every step of a thread that leaves no hole is nothing or one action of the store on the key map the table stands for, and which one: a put's search ends in its map action, goes on to the next candidate, or finds no room in the table; a collector's move relocates the record exactly if it is mapped |
| `KvThreads.DirtyLeavesHole` | src/uDepot/udepot-lsa.cc:1349-1356 | a displacement leaves a hole exactly if it failed after a move or freed a slot for a rejected REPLACE |
| `KvThreads.HolesComeFromDisplacement` | src/uDepot/udepot-lsa.cc:1313-1386 | no other step of any thread leaves a hole |
| `KvThreads.PutIsNeverStuck` | src/uDepot/udepot-lsa.cc:1085-1173 | a put still at work can always take its next step, whatever the others did to the table |
| `KvConcurrency.ThreadsRefineStore` | src/uDepot/udepot-lsa.cc:1085-1560 | as long as no step left a hole, every state the threads reach is, through its table, a state of a run of the store, so the accounting above holds of it |
| `KvConcurrency.CleanIsExact` | src/uDepot/udepot-lsa.cc:1349-1356 | the table stands for a key map in every state of a run if and only if no step left a hole |
| `KvConcurrency.CreateOnce` | src/uDepot/udepot-lsa.cc:1336-1345 | of any number of concurrent CREATEs of one key at most one succeeds, if no step left a hole |
| `KvConcurrency.GetIsAtomic` | src/uDepot/udepot-lsa.cc:977-1081 | a get answers as of its last search of the table, although it reads later and never revalidates, if no step left a hole |
| `KvHistory.GetReturnsPut` | src/uDepot/udepot-lsa.cc:977-1081 | with any puts and collections meanwhile, a get that hits returns the value given to the put that entered the map last for its key before the get's last search, and one that misses had none before it, if no step left a hole |
| `KvHistory.GetEnds` | src/uDepot/udepot-lsa.cc:977-1081 | at any moment a get that is not disturbed comes to an answer |
| `KvHoles.HoleMisleads` | src/uDepot/udepot-lsa.cc:1349-1356 | a run in which a rejected REPLACE leaves a hole, a get then misses a mapped key, a second CREATE of it succeeds, and the table stands for no key map |
| `KvGc.WrittenInBounds` | src/uDepot/udepot-lsa.cc:714-718 | neither the check for an empty header nor the bounds check ends the walk at a record that was written |
| `KvGc.VisitStaysInside` | src/uDepot/udepot-lsa.cc:700-731 | the walk goes on only from a record that is not empty and ends within the segment, and by exactly the grains it takes |
| `KvGc.GcStepKeeps` | src/uDepot/udepot-lsa.cc:741-802 | whatever else happens meanwhile, the walk stands at the end of an extent and everything before it is unmapped |
| `KvGc.GcEmptiesSegment` | src/uDepot/udepot-lsa.cc:694-802 | whatever else happens meanwhile, nothing maps into the segment after a collection that reports success, if no mapped record was behind an unwritten extent when it started |
| `KvGc.GcCondition` | src/uDepot/udepot-lsa.cc:741-802 | that condition is exact: otherwise there is a collection from that state that reports success and leaves a mapped record |
| `KvGc.RelocateKeepsView` | src/uDepot/udepot-lsa.cc:805-887 | a relocation changes the value of no key |
| `KvGc.QuietGc` | src/uDepot/udepot-lsa.cc:741-802 | while others only open segments, a whole collection changes no value, and vacates its segment exactly if no mapped record was hidden when it started |
| `KvTableGc.HeldIsMapped` | src/uDepot/udepot-lsa.cc:806-887 | the collector finds the entry of the record it stands at exactly if the record is mapped |
| `KvTableGc.WalkRefines` | src/uDepot/udepot-lsa.cc:741-887 | a walk through the table, with puts changing and displacing entries meanwhile, is step by step a walk over the key map |
| `KvTableGc.TableIsVacated` | src/uDepot/udepot-lsa.cc:741-887 | after a walk that reports success no entry of the table points into the segment, if no mapped record was hidden when it started |
| `MbuffSpec.CapsFromEnds` | src/include/uDepot/mbuff.hh:450-460 | only the two end nodes have slack, so sizes add up from the valid bytes and the ends |
| `MbuffSpec.SpaceAddsUp` | src/include/uDepot/mbuff.hh:271-283 | all buffers together are the string, the room on the side asked for, and the slack at the other end |
| `Mbuffs.Mbuff.GetFree` | src/uDepot/mbuff.cc:173-183 | the first free node comes loose and the links spell what is left |
| `Mbuffs.Mbuff.PutFree` | src/uDepot/mbuff.cc:188-194 | a loose node becomes the first free one; all nodes stay different and in one list each |
| `Mbuffs.Mbuff.LinkLast` | src/uDepot/mbuff.cc:115-121 | a loose node becomes the last, also of an empty list, and the tail is that node |
| `Mbuffs.Mbuff.LinkFirst` | src/uDepot/mbuff.cc:150-153 | a loose node becomes the first, also of an empty list, and the tail stays the last node |
| `Mbuffs.Mbuff.UnlinkFirst` | src/uDepot/mbuff.cc:261-265 | the first node comes loose, and the links from the head spell the rest |
| `Mbuffs.Mbuff.CutAfter` | src/uDepot/mbuff.cc:278-281 | a node becomes the last and the tail, and what followed it hangs from the link that is kept |
| `Mbuffs.Mbuff.AddBuff` | src/uDepot/mbuff.cc:166-171 | a buffer joins the free list with a node of its own, sizes follow |
| `Mbuffs.Mbuff.AppendPrepare` | src/uDepot/mbuff.cc:105-123 | lends the room behind the last node, linking a free one if needed; fails only without any room; links, tail and both lists stay in order |
| `Mbuffs.Mbuff.AppendFinalize` | src/uDepot/mbuff.cc:125-131 | exactly the bytes written to the chunk are appended |
| `Mbuffs.Mbuff.AppendFromBuffer` | src/include/uDepot/mbuff.hh:545-563 | appends the longest prefix there is room for, conserving buffers |
| `Mbuffs.Mbuff.AppendInline` | src/include/uDepot/mbuff.hh:163-169 | appends all or nothing, all exactly if the last node has the room |
| `Mbuffs.Mbuff.PrependPrepare` | src/uDepot/mbuff.cc:140-156 | lends the room in front of the first node, linking a free one if needed; fails only without any room; links, tail and both lists stay in order |
| `Mbuffs.Mbuff.PrependFinalize` | src/uDepot/mbuff.cc:158-164 | exactly the end of the chunk is put in front |
| `Mbuffs.Mbuff.PrependFromBuffer` | src/include/uDepot/mbuff.hh:567-585 | prepends the longest suffix there is room for, conserving buffers |
| `Mbuffs.Mbuff.PrependInline` | src/include/uDepot/mbuff.hh:186-193 | prepends all or nothing, all exactly if it fills the room in front |
| `Mbuffs.Mbuff.MoveFreeBuffsTo` | src/uDepot/mbuff.cc:208-223 | which buffers move, in which order, to nodes of the other Mbuff, and that it stops only when none is left or enough was moved |
| `Mbuffs.Mbuff.GetTotalSize` | src/include/uDepot/mbuff.hh:271-283 | the sum of the sizes of all buffers |
| `Mbuffs.Mbuff.FreeAll` | src/uDepot/mbuff.cc:282-287 | a chain of loose nodes goes to the free list, node by node |
| `Mbuffs.Mbuff.Reslice` | src/uDepot/mbuff.cc:225-294 | the string becomes its slice, or nothing changes when the slice is not within it; the links spell the new lists, the tail is the last node, buffers are conserved |
| `MbuffReaders.FindNode` | src/uDepot/mbuff.cc:323-335 | the node and offset of a byte, found exactly if the string has it |
| `MbuffReaders.Iterator.Begin` | src/uDepot/mbuff.cc:372-391 | the iterator stands at the first byte with that node's buffer borrowed |
| `MbuffReaders.Iterator.Next` | src/uDepot/mbuff.cc:425-450 | the buffer is returned and the next one borrowed, or the list is as it was |
| `MbuffReaders.Iterator.Stop` | src/uDepot/mbuff.cc:452-460 | the buffer is returned and the list is as it was |
| `MbuffReaders.CopyToBuffer` | src/include/uDepot/mbuff.hh:646-670 | exactly the bytes at the offset that exist, every buffer returned |
| `MbuffReaders.MemCompareBuffer` | src/include/uDepot/mbuff.hh:745-773 | zero exactly for equal bytes, every buffer returned |
| `MbuffReaders.MemCompare` | src/include/uDepot/mbuff.hh:780-827 | zero exactly for equal ranges, however both sides are chunked, every buffer returned |
| `MbuffReaders.Hash` | src/include/uDepot/hash-function.hh:65-90 | the hash depends on the bytes only, not on the chunks |
| `Codec.FieldFits` | src/include/uDepot/lsa/store.hh:22-33 | a number survives a field exactly if it fits its width |
| `Codec.HeaderFields` | src/include/uDepot/lsa/store.hh:22-33 | what is read back from a header at the front of a record |
| `Codec.HeaderBytes` | src/include/uDepot/lsa/store.hh:22-33 | every byte of a header: two of key size, four of value size and eight of timestamp, the lowest first |
| `PutRecord.PrependAppendMd` | src/uDepot/udepot-lsa.cc:1175-1235 | header and suffix are put around the key and value, both exactly if there is just the room for them |
| `PutRecord.RecordLayout` | src/uDepot/udepot-lsa.cc:1410-1435 | a record is header, key and value, suffix and zeros, and is the shortest such string of whole grains |
| `PutRecord.AppendPadding` | src/uDepot/udepot-lsa.cc:1269-1303 | pads with zeros, exactly when there is room or what is asked of the allocator makes enough, and otherwise leaves the string alone |
| `PutRecord.AddBuffers` | src/include/uDepot/mbuff-alloc.hh:61-73 | the free bytes grow by one buffer for what is missing, rounded up to 4096 bytes, or not at all when none is missing or there is no memory; the string stays |
| `PutRecord.PaddingFits` | src/uDepot/udepot-lsa.cc:1272-1280 | the exact condition under which padding succeeds when there is memory |
| `PutRecord.PaddingCanFail` | src/uDepot/udepot-lsa.cc:1272-1280 | a padding that fails although there is memory |
| `PutRecord.Attempt` | src/uDepot/udepot-lsa.cc:1388-1449 | an attempt writes the record exactly when it is granted an extent, there is room for header and suffix, padding succeeds, and the device is willing; every other answer of the allocator ends it; the reslice after it restores the key and value, and the room if both ends hold bytes of them |
| `PutRounds.KeyMatches` | src/uDepot/udepot-lsa.cc:1135-1141 | the record that a lookup read matches exactly if its header gives the key's size and the bytes are equal |
| `PutRounds.Search` | src/uDepot/udepot-lsa.cc:1097-1163 | the candidates are read into one Mbuff after the other until one has the key and is still in the map, or a read fails; which one that is, and how much the buffers have grown |
| `PutRounds.LookupAside` | src/uDepot/udepot-lsa.cc:1323-1334 | free buffers are moved away for the lookup and all that the lookup has afterwards comes back, to the byte; key and value stay where they are |
| `PutRounds.SettlesAsStore` | src/uDepot/udepot-lsa.cc:1336-1386 | if every lookup sees the map of its moment, the update settles with the outcome of the protocol's map action at the lookup that decides, and the table had no slot before |
| `PutRounds.UpdateMap` | src/uDepot/udepot-lsa.cc:1512-1549 | the map update ends as the lookups' reads, the operation and the order of the extents say: lookups follow one another as long as the table can be made larger; otherwise only a failed read ends it |
| `PutRounds.Put` | src/uDepot/udepot-lsa.cc:1491-1556 | over all retries, every round that was granted an extent writes the record of the original key and value; all rounds but the last ended, by their lookups and the operation, in another one; the last ended as the put did, or the next one could not write; the total size of the buffers never shrinks |
| `PutRecord.KeyReadsBack` | src/uDepot/udepot-lsa.cc:1137-1141 | the key in a record matches exactly if its size fits 16 bits and its bytes are equal |
| `PutRecord.ValueReadsBack` | src/uDepot/udepot-lsa.cc:1621-1629 | the size in the header selects the value, all of it exactly if its size fits 32 bits |
| `PutRecord.RecordableReadsBack` | src/uDepot/udepot-lsa.cc:709-718 | sizes read from the header of a record are those of its key and value, and not both zero, exactly if the sizes fit their fields and are not both zero |
| `PutRecord.Get` | src/uDepot/udepot-lsa.cc:1621-1629 | the reslice of a get leaves exactly the value, if and only if its size fits 32 bits |
| `Segments.MovedKeeps` | salsa/src/include/sto-ctlr/private/sto-segment.h:24-33 | moving a segment keeps every segment in exactly the one queue its fields name |
| `Segments.BinOfBounds` | salsa/src/gc/gc-nbin.c:577-585 | full segments alone are in the last bin, the others in the bin whose share of the segment size, to within one grain per bin, holds their valid grains, for all sizes |
| `Segments.BinDivBounds` | salsa/src/gc/gc-nbin.c:113-125 | a bin's width is the least number of grains with which the bins cover a segment |
| `SegmentGc.Gc.AddSegment` | salsa/src/sto-ctlr/scm-seg-queues.c:86-119 | a new segment fills the reserve first, then its free queue, and the invariants of all segments, queues and counts hold |
| `SegmentGc.Gc.GetFree` | salsa/src/sto-ctlr/scm-seg-alloc.c:89-175 | the first free segment of the queue, or nothing and the credit back |
| `SegmentGc.Gc.PutFree` | salsa/src/sto-ctlr/scm-seg-alloc.c:177-215 | an empty segment goes to the reserve if that is short, else to its queue; the reserve never exceeds its size |
| `SegmentGc.Gc.PushPop` | salsa/src/gc/gc-nbin.c:620-650 | first in, first out; the queue stays below its threshold and never gives out the segment that just came |
| `SegmentGc.Gc.Destage` | salsa/src/gc/gc-nbin.c:818-852 | where a written segment goes, to the reserve or the free segments if nothing in it is valid, that the count of destaged segments follows, and that no other segment changes but one that may leave its delay queue |
| `SegmentGc.Gc.Invalidate` | salsa/src/gc/gc-nbin.c:904-961 | where a segment goes when grains are invalidated, in every place it may be, to the reserve or the free segments if it was the last, and that no other segment changes but one that may leave its delay queue |
| `SegmentGc.Gc.CherryPick` | salsa/src/gc/gc-nbin.c:854-902 | a nearly empty waiting segment leaves the middle of its queue |
| `SegmentGc.Gc.Select` | salsa/src/gc/gc-nbin.c:1432-1467 | the victim is the oldest segment of the lowest bin that has one, is never full and has more valid grains than any binned segment by less than the segment size divided by the number of bins; with nothing to collect the oldest waiting segment is binned |
| `SegmentGc.Gc.TryPopOne` | salsa/src/gc/gc-nbin.c:1360-1373 | the oldest segment of the first delay queue that has one |
| `SegmentGc.Gc.Relocated` | salsa/src/gc/gc-nbin.c:1460-1466 | a relocated segment is freed, to the reserve if that is short, else to the free segments of its queue, and the count follows |
| `SegmentGc.Gc.RelocationFailed` | salsa/src/gc/gc-nbin.c:1242-1250 | after a failed relocation the segment is in the bin of what is left |
| `BigReader.StepKeeps` | src/include/uDepot/rwlock.hh:36-64 | every atomic access keeps each counter equal to its bias, less the writer's share, less the readers that decremented it |
| `BigReader.MutualExclusion` | src/include/uDepot/brlock.hh:41-69 | from the end of the writer's scan until it leaves a lock nobody holds it, although the scan is not atomic |
| `BigReader.RefusedUnderFlag` | src/include/uDepot/rwlock-pagefault.hh:69-73 | a reader is refused only in a step in which the write flag is up |
| `BigReader.TurnedAway` | src/include/uDepot/rwlock.hh:36-40 | the first look turns a reader away exactly if the writer has marked its lock and no reader is at it |
| `BigReader.MarkedUnderFlag` | src/include/uDepot/rwlock-pagefault.hh:79-93 | a lock the writer holds implies that the flag is up |
| `BigReader.QuietIsFresh` | src/include/uDepot/rwlock.hh:36-64 | when nobody is at it, every counter is 2^24 again |
| `BigReader.ReaderGetsIn` | src/include/uDepot/rwlock.hh:36-52 | in every state of every run in which the flag is down, a reader outside gets in with its next two accesses, whatever the others are at |
| `BigReader.WriterGetsIn` | src/include/uDepot/brlock.hh:41-69 | when no reader is in, a writer left alone marks and scans all locks and is ready, and changes no reader |
| `BigReader.WriterGetsOut` | src/include/uDepot/brlock.hh:41-69 | a writer that is ready and left alone gives back all locks, lowers the flag and changes no reader |
| `Sleeping.NoLostWakeup` | src/uDepot/rwlock-pagefault.cc:60-135 | a sleeping reader implies that the flag is up or its wake-up is owed |
| `Sleeping.NoLostNotification` | src/uDepot/rwlock-pagefault-trt.cc:58-147 | a sleeping reader waits for the published object or for one still to be notified |
| `Sleeping.RefusedWaits` | src/uDepot/rwlock-pagefault.cc:60-115 | a refused reader can always wait, and sleeps if the flag is up and starts over if not |
| `Sleeping.RefusedSubscribes` | src/uDepot/rwlock-pagefault-trt.cc:58-90 | a refused reader can always subscribe, and sleeps if an object is published and starts over if not |
| `Streaming.AbsorbConcat` | src/include/util/xxhash.h:2566-2623 | absorbing a string in two pieces is absorbing it whole |
| `Streaming.TailLength` | src/include/util/xxhash.h:2578-2622 | the bytes buffered are the total length modulo the stripe, which is how the digest and the one-shot function take them |
| `Streaming.OneShot` | src/include/util/xxhash.h:2468-2509 | the one-shot loop computes the hash function |
| `Streaming.Stream.Update` | src/include/util/xxhash.h:2566-2623 | after any update the state is that of everything fed so far |
| `Streaming.Stream.Digest` | src/include/util/xxhash.h:2627-2650 | the digest, whose tail is taken by the total length modulo the stripe, is the hash of everything fed so far |
| `XxHash.Xxh64InPieces` | src/include/util/xxhash.h:2304-2650 | XXH64 of any pieces shorter than 2^64 bytes together is the one-shot value |
| `XxHash.Xxh32InPieces` | src/include/util/xxhash.h:1911-2090 | XXH32 of any pieces is the one-shot value, even when the length counter wraps |
| `XxDigests.Digests64` | src/include/util/xxhash.h:2304-2509 | XXH64 with seed zero of nothing and of 45 bytes of value one, which take every constant and rotation |
| `XxDigests.Digests32` | src/include/util/xxhash.h:1911-2010 | XXH32 with seed zero of nothing and of 21 bytes of value one, which take every constant and rotation |
| `XxDigests.LeastFirst` | src/include/util/xxhash.h:1911-2010 | words are read with the lowest byte first |
| `Xxh3.ConsumeStripes` | src/include/util/xxhash.h:4699-4722 | stripes across a block boundary are accumulated with one scramble at the boundary |
| `Xxh3.OneShot` | src/include/util/xxhash.h:4343-4373 | the block loop and the last stripe compute the hash function |
| `Xxh3.HashByStripes` | src/include/util/xxhash.h:4343-4373 | up to 240 bytes go to the short hash; a longer string is taken in stripes of 64 bytes up to the last byte, with the secret's position counted anew in every block and a scramble after each, then once more its last 64 bytes |
| `Xxh3.Stream.Update` | src/include/util/xxhash.h:4726-4792 | after any update the accumulators hold what was consumed, and the buffer what the last stripe may need |
| `Xxh3.InPieces` | src/include/util/xxhash.h:4726-4850 | XXH3 of any pieces shorter than 2^64 bytes together is the one-shot value |
| `Striping.StripeByProduct` | src/uDepot/io/trt-spdk-array.cc:95-100 | dividing by block size times device number gives the stripe |
| `Striping.LocateIsInjective` | src/uDepot/io/spdk.cc:64-81 | every logical offset has its own position, in both layouts |
| `Striping.LocateIsSurjective` | src/uDepot/io/spdk.cc:64-81 | every position on a device is that of a logical offset, in both layouts |
| `Striping.LocateInRange` | src/uDepot/io/trt-spdk-array.cc:102-107 | the logical range is exactly what the devices hold |
| `Striping.LocateSteps` | src/uDepot/io/spdk.cc:64-81 | where the blocks go: the first to the first device, each further one of a stripe to the next device, those of the next stripe one block behind, on the same device or, rotated, the next |
| `Striping.Device.PWrite` | src/uDepot/io/trt-spdk-array.cc:247-267 | exactly the logical bytes asked for are written, or those in the blocks before the one that fails |
| `Striping.InBlocksIs` | src/uDepot/io/trt-spdk-array.cc:253-265 | how many bytes that is: whole blocks but for where the first one starts |
| `Striping.Device.PRead` | src/uDepot/io/trt-spdk-array.cc:247-267 | exactly the logical bytes asked for are read |
| `Striping.RoundTrip` | src/uDepot/io/trt-spdk-array.cc:247-267 | what was written is read back |
| `IoVectors.RoundedIsExact` | src/uDepot/io/spdk.cc:327-333 | a transfer answers with the length asked for exactly if it is aligned |
| `IoVectors.RoundedCovers` | src/uDepot/io/spdk.cc:327-333 | the range transferred is the smallest of whole blocks of 512 bytes that covers the one asked for |
| `IoVectors.Transfer` | src/uDepot/io/spdk.cc:595-633 | aligned buffers are transferred completely and in order; every transfer goes on where the last one ended, up to the end of the block or of the data, none crosses a block, and the loop ends |
| `Throttle.WriteAmpBound` | salsa/src/sto-ctlr/scm-throttler.c:180-189 | the collector's budget never exceeds a thousand times the segment size less one |
| `Throttle.WriteAmpIs` | salsa/src/sto-ctlr/scm-throttler.c:180-189 | the collector's budget is a thousand times the relocated grains per grain gained, rounded down |
| `Throttle.Throttler.UserSlot` | salsa/src/sto-ctlr/scm-throttler.c:55-69 | a slot is taken or the user throttled; slots taken never exceed the budgets handed out |
| `Throttle.Throttler.GcSlot` | salsa/src/sto-ctlr/scm-throttler.c:71-102 | what is left of the collector's budget after the pages, how often it was refilled, that users get a fresh budget with every refill, and that the loop ends |
| `Throttle.Throttler.GcStarts` | salsa/src/sto-ctlr/scm-throttler.c:155-161 | users get a fresh budget, counted as one more handed out |
| `Throttle.Throttler.constructor` | salsa/src/sto-ctlr/scm-throttler.c:44-53 | all budgets start at a thousand |
| `Throttle.Throttler.Update` | salsa/src/sto-ctlr/scm-throttler.c:164-193 | the next budget is a thousand times the relocated grains per grain gained, rounded down; it stays as it was exactly if nothing was relocated, nothing gained, or that is zero, and so is never empty |
| `Capacity.Scale` | salsa/src/sto-ctlr/scm-dev-properties.c:288-315 | each part is the rounded-up share, computed in 64 bits, or what is left; they add up to the new length or to all the shares, whichever is less; if nothing wraps they add up to the new length and each is in proportion to its range, rounded up, or all that is left |
| `Capacity.ScaleCanWrap` | salsa/src/sto-ctlr/scm-dev-properties.c:288-315 | a device of one range of 2^40 bytes, of which a new length of 2^24 bytes leaves nothing |
| `Capacity.Find` | salsa/src/sto-ctlr/scm-dev-properties.c:371-389 | the range that contains an offset, found exactly if there is one |
| `Capacity.LinearMap` | salsa/src/sto-ctlr/scm-dev-properties.c:436-466 | the device of the offset's range and the address there, found exactly below the total size |
| `Capacity.LinearMapIsInjective` | salsa/src/sto-ctlr/scm-dev-properties.c:429-466 | the map is injective if and only if every device's ranges are consecutive |
| `Capacity.DeviceIsFound` | salsa/src/sto-ctlr/scm-dev-properties.c:371-466 | the device is the one of the range that is found |
| `Streams.MapToStreams` | salsa/src/sto-ctlr/scm-seg-queues.c:359-461 | in all three cases the streams hold together what the queues hold and all their properties, and a stream with a queue to itself has the one at its place; with more streams the first ones share the last queue in equal parts, rounded down, and a rest; with more queues the first stream has all the last ones |

## Left out

- Deletes and tombstones in the protocol, the threads, recovery and accounting; entries marked deleted appear in the table's lookups, displacements and copies.
- HopTable.HopMap.CopyEntry: for a full bucket it excludes deleted entries, because a displacement that succeeds among them may still hide an entry (Hopscotch.TryShiftBreaks); a grow never meets a full bucket.
- DirectoryGrow.Grow: says nothing of deleted entries but that they are in the way of nothing; the code overwrites one when it copies a live entry whose fingerprint is already there.
- Hopscotch.TryShiftHoles: for tables without deleted entries; Hopscotch.TryShiftBreaks is for all.
- KvRestart.CrashRecovery: does not model that the table has no room for a record, or that a segment cannot be read.
- Relocation in the recovery theorem: it is stated for runs without GC, and `KvLimits.GcCopyIsResurrected` shows why.
- Reuse of a reclaimed segment: extents are never written twice, so neither lookups nor GC meet records of an earlier life of a segment.
- The granularity of the bucket locks: what a thread does between taking and dropping them is one step; that operations on overlapping buckets share a lock is not modelled.
- A grow of the directory while puts and gets are at work; the lock that excludes it is modelled by itself, and the copy it makes by itself. A put that asks for a larger table starts over in the same one.
- The 32-entry array of visited extents is a sequence without bound.
- Puts of a key or value larger than the header can record, or of nothing at all, in the protocol: `KvStore` has no such write, although the code does not refuse it; `PutRecord` includes them.
- KvStore.Grains: does not model the 32-bit addition of key and value size, because sizes are below that wherever the header can record them.
- Checksums, CityHash and the arithmetic inside XXH3 are parameters.
- Buffers of the Mbuff: a buffer is an identity with its bytes, kept in its node; two nodes that share a buffer and the cache of node objects are not captured. The addition of offset and length in a reslice does not wrap.
- MbuffReaders.MemCompare: requires a positive length and two different Mbuffs, as the code's assertions do, with nodes of their own.
- PutRounds.Put: requires a key that is not empty, as the assertions of the comparison do.
- Mbuffs.Mbuff.AddBuff: requires a buffer that is not empty, as the code's assertions do where a chunk of it is lent.
- Mbuff.reset, fill_iovec_append, append_recv and the other input and output helpers of Mbuff.
- SegmentGc.Gc.AddSegment: adds one segment at a time and does not model segments that are skipped when a queue is smaller than its device.
- SegmentGc.Gc.Relocated: requires that no grain of the segment is valid, which the code asserts; that the relocation callback achieves it is the subject of KvGc.
- Interleavings inside one operation of the segment collector: each is one step.
- The three-bin, dynamic-threshold and patent variants of the collector, and the choice of a free queue by its flags.
- A callback failure during segment allocation, which returns the thin-provisioning credit twice.
- Liveness: that a writer or a sleeper eventually goes on whatever the schedule; BigReader.WriterGetsIn and BigReader.WriterGetsOut are about a writer left alone.
- Overflow of the lock counters beyond 31 bits.
- Concurrent writers of the collector in the throttle: two that find the budget empty at once would both refill it.
- The vectored array transfer of trt-spdk-array.cc, which advances by a length it has already set to zero.
- Networking, device backends, bindings, statistics and configuration: they would only add plumbing.
