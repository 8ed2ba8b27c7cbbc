# DingusPPC: verified core algorithms

DingusPPC emulates PowerPC Macintoshes. This project models six of its self-contained cores in
Dafny and proves what they promise.

* **Timers** (`TimerQueue`, `TimerManager` over shared timer objects; `TimerModel`, `TimerSafety`,
  `TimerProcess` over values). The heap of mutable timers refines a state machine with a log of
  additions, cancellations and firings. Callbacks are an arbitrary function from the log so far to
  a list of add and cancel requests.
* **Meta disk image** (`DiskLayout`, `MetaChunks`, `MetaImgFile` and the `Apm...` modules,
  `Takeover`, `TakeoverBytes`, `TakeoverRuns`, `PartitionReads`, `Block0Endian`, `Block0Bytes`). A list of chunks with
  separate stores is one flat disk; growing the partition map, taking over partitions from any
  number of other images and adding single volumes preserve what a read of a partition returns.
* **POWER shifts and lscbx** (`BitWords`, `PowerShifts`, `PowerRegisters`, `PowerBits`,
  `StringLoad`, `LscbxBytes`, `PowerOpcodes`). Chains of shifts through MQ are shifts of one big number. Words are bit vectors;
  `BitWords.Val` gives the number a word denotes.
* **ROM checksums** (`BigEndian`, `Adler`, `RomChecksums`, `RomLayouts`, `RomFixing`). The fast Adler-32 is the
  defined one, and fixing all checksums of a ROM once leaves them all right.
* **Wide products and byte lanes** (`MathUtils`, `EndianSwap`).
* **Translation listing** (`Translations`).

Words of 32 and 64 bits wrap around as in the source (`Words.Wrap32`, `Words.Wrap64`, bit vectors).

Where a promise does not hold of the code, the code is kept and the exact condition is proved:

* `MetaImgFile.MetaImgFile.Read` and `Write` are exact if and only if no gap between chunks lies in
  the range; an appended image whose size is not a multiple of 512 leaves such a gap in front of
  the next one (`Takeover.OddImageLeavesGap`).
* Growing the map does not raise the limit that `add_partition` checks, so entries are dropped
  although there is room (`Takeover.EntriesDroppedIff`).
* Entries lead to their partitions if and only if the block numbers fit 32 bits
  (`TakeoverRuns.EntryLeadsThereIff`); growth can take an earlier partition past that
  (`TakeoverRuns.RunPastLimit`).
* Converting block 0 to host order and back restores it if and only if the driver count is not cut
  down (`Block0Endian.RoundTripIff`), which for a block of at least 18 bytes means that it fits the
  block (`Block0Endian.CountSurvivesIff`). Without its signature the driver entries are not converted
  at all (`Block0Bytes.UnsignedDriversStay`), and growth misplaces them
  (`Block0Bytes.UnsignedDriverMisplaced`).
* `process_timers` need not return when callbacks keep adding expired timers
  (`TimerProcess.ImmediateTimersNeverEnd`), and a re-armed timer is due in the future if and only
  if a 64-bit sum does not wrap (`TimerProcess.RearmOkIff`).
* One pass of checksum fixing is enough for all OldWorld ROMs with a given ConfigInfo offset if and
  only if the offset is not one of 0x5A to 0x63 (`RomFixing.OneFixIffOffsetStays`).
* The translation listing drops its last stretch if and only if page 0 physically continues the
  last page (`Translations.LosslessIff`).

Check the project with `dafny verify dfyconfig.toml`.

## Model

| member | source | states |
|---|---|---|
| TimerQueue.PriorityQueue.Push | core/timermanager.h:72-76 | The vector stays a heap on (timeout, id) over the shared timer objects, and exactly the pushed object is added. |
| TimerQueue.PriorityQueue.Pop | core/timermanager.h:78-84 | The root leaves the vector; the rest is a heap of the same objects. |
| TimerQueue.PriorityQueue.RemoveById | core/timermanager.h:53-70 | Succeeds exactly when some timer carries the id; then the first one in the vector is gone, the rest is kept as a multiset and is a heap again; otherwise nothing changes. |
| TimerQueue.RootIsLeast | core/timermanager.h:103-109 | In a heap no element is due before the root, at any depth. |
| TimerQueue.SiftDown | core/timermanager.h:66 | Sifting one element down restores the heap below it and permutes only the first n elements. |
| TimerManager.TimerManager.AddAbsoluteTimer | core/timermanager.cpp:33-53 | Refines the state machine: a fresh id, one more pending timer, a notification unless a callback is active. |
| TimerManager.TimerManager.CancelTimer | core/timermanager.cpp:75-81 | The first timer in the vector with that id leaves the queue; while ids are unique, exactly the timer with that id is no longer pending. |
| TimerManager.TimerManager.CancelAllTimers | core/timermanager.cpp:143-151 | Popping until the queue is empty leaves nothing pending. |
| TimerManager.TimerManager.GetNextTimeoutNs | core/timermanager.cpp:134-141 | 0 for an empty queue, else the least pending timeout. |
| TimerManager.TimerManager.RearmCyclic | core/timermanager.cpp:103-110 | The key of a timer object changes only while the object is outside the heap, which stays in order; it becomes timeout + interval if that is still to come, and else now + interval, on the 64-bit clock. |
| TimerManager.TimerManager.ProcessTimers | core/timermanager.cpp:83-132 | The loop over shared mutable timer objects refines `TimerModel.Process` for any callbacks, and returns the next timeout or 0. |
| TimerManager.Play | core/timermanager.cpp:33-151 | Any sequence of calls carried out on a new manager leaves it in the state that the results over runs speak of. |
| TimerManager.RootIsEarliest | core/timermanager.cpp:95-97 | The root of the heap is the pending timer with the least (timeout, id). |
| TimerProcess.EachExpiredOnce | core/timermanager.cpp:97-128 | Whatever the callbacks add or cancel, each timer expired at the start fires exactly once at the timeout it had, or is cancelled before it fires and does not fire. |
| TimerProcess.FiringOrder | core/timermanager.cpp:97-128 | If the callbacks that this call runs add nothing already expired, only timers expired at the start fire, in strictly increasing (timeout, id) order. |
| TimerProcess.AddedExpiredFires | core/timermanager.cpp:97-128 | The condition on the callbacks is needed: an expired timer that one of them adds fires in the same call if that ends, although it was not pending at the start, unless it is cancelled afterwards. |
| TimerProcess.NotPolite | core/timermanager.cpp:97-128 | When the condition on the callbacks fails, one of the firings of the call asks for a timer that is already expired. |
| TimerProcess.Terminates | core/timermanager.cpp:97-128 | Under the same condition the call ends within as many firings as there are expired timers. |
| TimerProcess.ExpiredShrinks | core/timermanager.cpp:97-128 | Every firing strictly shrinks the set of expired timers. |
| TimerProcess.NothingLeft | core/timermanager.cpp:122-131 | When the call ends, nothing expired is pending, and it returns 0 for an empty queue, else the least remaining timeout, which is after the current time. |
| TimerProcess.FiringIsLogged | core/timermanager.cpp:97-128 | The log of a call shows exactly the firings that the other results speak of, in order. |
| TimerProcess.ImmediateTimersNeverEnd | core/timermanager.cpp:60-63 | The condition is needed: a callback that always adds an immediate timer keeps one call going for any number of firings. |
| TimerProcess.RearmOkIff | core/timermanager.cpp:103-108 | Re-arming leads past the current time exactly when one of the 64-bit sums does not wrap around. |
| TimerProcess.OneFiringIffNoWrap | core/timermanager.cpp:97-128 | A lone expired cyclic timer fires once per call exactly under that condition. |
| TimerProcess.PendingAgain | core/timermanager.cpp:98-115 | After a firing the timer is pending again exactly at timeout + interval if that is still to come and fits 64 bits, else at now + interval on 64 bits, and not at all without an interval; no other timer changes. |
| TimerProcess.LoneTimerReturns | core/timermanager.cpp:103-131 | With one cyclic timer and no requests `process_timers` fires once and returns timeout + interval if that is still to come, and else now + interval. |
| TimerSafety.RunKeeps | core/timermanager.cpp:33-132 | In every sequence of calls that creates fewer than 2^32 timers, ids count the timers created, every pending timer is armed for a reason the log shows, and every firing so far was legal. |
| TimerSafety.CancelledStaysSilent | core/timermanager.cpp:75-132 | After a timer is cancelled, also by a callback and also when it is the one being fired, no later step fires it. |
| TimerSafety.OneShotFiresOnce | core/timermanager.cpp:97-115 | A timer without interval fires at most once in a whole run. |
| TimerSafety.CyclicRate | core/timermanager.cpp:97-115 | A cyclic timer first due at f fires at most floor((t - f) / interval) + 1 times by time t, over any run without 64-bit overflow. |
| TimerSafety.FirstFiringDue | core/timermanager.cpp:97-102 | The first firing of a timer is with the timeout it was added with. |
| TimerSafety.NextFiringDue | core/timermanager.cpp:103-110 | Over any run, between two firings of a timer the timeout goes on by exactly the interval if that is after the first firing, and else to its time plus the interval. |
| TimerSafety.KeepsPhase | core/timermanager.cpp:103-110 | Over any run, a timer first due at f whose firings all came before it was due once more fires the k-th time, from 0, with timeout f + k * interval. |
| TimerSafety.RearmBounds | core/timermanager.cpp:103-108 | Without overflow the new timeout is after now, at most now + interval, and at least old + interval. |
| TimerSafety.FireKeeps | core/timermanager.cpp:97-115 | Firing and re-arming one timer keeps the invariant of runs. |
| MetaImgFile.MetaImgFile.Read | utils/metaimgfile.cpp:340-368 | Fills the buffer with the flat disk, zero past its end, and counts the bytes inside, across any number of chunks, exactly when the range has no gap between chunks; with a gap, and only then, the count falls short. |
| MetaImgFile.MetaImgFile.Write | utils/metaimgfile.cpp:370-398 | Without a gap changes exactly the flat range, to the bytes given, and no other byte of the disk, so that a read of the range returns them; with a gap it stays within the range and the count falls short. |
| MetaChunks.MetaChunk.WriteAt | utils/metaimgfile.cpp:385-386 | A chunk write replaces exactly that part of what the chunk shows of the disk. |
| MetaChunks.MetaChunk.SetChunkBegin | utils/metaimgfile.cpp:162-167 | Moves what the chunk shows without changing its bytes. |
| MetaChunks.MetaChunk.SetChunkSize | utils/metaimgfile.cpp:169-173 | Shows the given number of bytes of the store. |
| MetaChunks.MetaChunk.AddSrcOffset | utils/metaimgfile.cpp:175-180 | Drops the first bytes of what the chunk shows. |
| DiskLayout.ContiguousNoGap | utils/metaimgfile.cpp:344-362 | Over contiguous chunks no range within the disk has a gap, so reads and writes there are exact. |
| DiskLayout.ContiguousIffNoGap | utils/metaimgfile.cpp:344-362 | For chunks in order, every range within the disk is free of gaps exactly when the chunks are contiguous. |
| DiskLayout.MovedUpLaid | utils/metaimgfile.cpp:661-666 | Moving all chunks but the first keeps the list sorted and disjoint, and it is contiguous exactly when it was. |
| DiskLayout.MovedUpByte | utils/metaimgfile.cpp:661-666 | Every byte from the cut on is found d positions higher after the move. |
| DiskLayout.MovedUpCovered | utils/metaimgfile.cpp:661-666 | A position belongs to a chunk after the move exactly when the one d lower did before, so that gaps move along and none appears. |
| DiskLayout.PieceAdded | utils/metaimgfile.cpp:556-562 | Appending a chunk behind the end shows its bytes there without a gap, and changes no other byte and no other position's belonging to a chunk; the sort is then a no-op. |
| ApmGrowth.GrowthFits | utils/metaimgfile.cpp:601-611 | The growth leaves room for the entries asked for and eight more, fills whole groups of 64 blocks, and is 0 exactly when there was room already. |
| ApmGrowth.MoveMap | utils/metaimgfile.cpp:627-658 | The block count, every driver's block, the map's own lengths and every other entry's start move by the increment, and no other byte of the map changes. |
| ApmGrowth.Widen | utils/metaimgfile.cpp:613-625 | Copies block 0 and the used entries in place, and everything behind the old map to its new position. |
| ApmGrowth.WidenedMoved | utils/metaimgfile.cpp:601-659 | Both steps together give the grown map: moved block numbers, all other used bytes and everything behind the map unchanged. |
| MetaImgFile.MetaImgFile.ReservePartitions | utils/metaimgfile.cpp:601-669 | One growth step: the chunks stay sorted and disjoint, and every byte at or after the old map end is read back at its position plus the increment. |
| Takeover.GrowthKeepsPartitions | utils/metaimgfile.cpp:613-668 | After a growth step every used partition other than the map has its start moved, contains the same bytes there, and has gaps where it had them. |
| Takeover.GrowthKeepsDrivers | utils/metaimgfile.cpp:630-635 | The driver map still names the blocks of the drivers, whose bytes and gaps are the same, and block 0 the size of the disk. |
| MetaImgFile.MetaImgFile.AddPartition | utils/metaimgfile.cpp:671-693 | With room, the entry follows the used ones and all used entries carry the new count; without, nothing changes. |
| ApmEntries.AppendedKeeps | utils/metaimgfile.cpp:680-692 | Adding entries keeps the start and size of the entries there were, block 0 and everything behind the map. |
| ApmEntries.AppendedEntry | utils/metaimgfile.cpp:680-692 | The added entries read back. |
| MetaImgFile.MetaImgFile.AppendChunk | utils/metaimgfile.cpp:537-563 | The chunk goes to the end of the disk, the size becomes a whole number of blocks, and block 0 says it, or all ones if it needs more than 32 bits. |
| MetaImgFile.MetaImgFile.LoadMap | utils/metaimgfile.cpp:581-598 | The first chunk shows the loaded map, with the number of used entries and the room it declares. |
| MetaImgFile.MetaImgFile.Gather | utils/metaimgfile.cpp:402-460 | Takes the wanted entries up to the declared count or the first wrong signature, and the stretch of the image they span. |
| ApmListing.TakenExactly | utils/metaimgfile.cpp:413-457 | On the bytes of the image: entry k is taken exactly when it is the first or within the count, the signatures up to it are right, and bytes 48 to 80 hold none of the seven types followed by a zero; in the order of the map, each once. |
| ApmListing.HoldsMapIff | utils/metaimgfile.cpp:413-457 | The image must hold its first entry and the last one of the count. |
| ApmListing.NewEntriesExactly | utils/metaimgfile.cpp:413-491 | The new entries are those of the taken ones whose new place and length fit 32-bit block numbers, in order, rewritten in start, length and data count and otherwise copied. |
| ApmImages.StretchHolds | utils/metaimgfile.cpp:440-450 | The stretch lies in the image and contains every partition that is in range. |
| ApmImages.StretchTight | utils/metaimgfile.cpp:446-449 | And it is no longer: a partition in range begins it and one ends it. |
| ApmImages.NoStretchAppendsOneByte | utils/metaimgfile.cpp:466-479 | When no wanted partition is in range, the 64-bit arithmetic makes the appended stretch one byte, the one before the image. |
| ApmImages.RelocatedPosition | utils/metaimgfile.cpp:466-488 | The new entry of an in-range partition with 512-divisible extents names the place of its bytes in the appended chunk. |
| MetaImgFile.MetaImgFile.AddPartitionsFromImage | utils/metaimgfile.cpp:400-498 | The whole operation: grow the map, add the relocated entries that fit, append the stretch of the image; nothing if there is nothing to take. |
| Takeover.TakeoverHolds | utils/metaimgfile.cpp:462-493 | The steps together keep the old bytes and what is covered by chunks, list the new entries and show the bytes of the image without a gap; the chunks are contiguous exactly when they were and the disk ended on its size. |
| Takeover.RoomAndPiece | utils/metaimgfile.cpp:537-668 | Growing the map and appending a chunk keep every old byte and every old gap at its moved position; the new chunk is shown whole, without a gap. |
| Takeover.ContiguousAfter | utils/metaimgfile.cpp:537-668 | After both the chunks are contiguous exactly when they were and the disk ended on its size, and the disk ends on its size exactly when the chunk is whole blocks. |
| Takeover.RelocationExact | utils/metaimgfile.cpp:462-493 | At a relocated partition's new start the disk shows, without a gap, the bytes of the image at its old start, behind everything there was and within the new size, with block numbers that fit 32 bits. |
| Takeover.OldPartitionsKept | utils/metaimgfile.cpp:601-668 | Partitions already on the disk keep their contents when an image is appended, and gain no gap. |
| TakeoverBytes.MapOkIff | utils/metaimgfile.cpp:581-598 | What the loaded map must be: count and extent in its first entry, and a block 0 with signature and drivers that fit. |
| TakeoverBytes.GrowthOnBytes | utils/metaimgfile.cpp:613-659 | What growth does to every byte: the number at 4 and the drivers' blocks from 18 on in block 0, the map's lengths at 524 and 596, and every other entry's start at 8 go on by the increment; all other bytes stay. |
| TakeoverBytes.ImageOnDisk | utils/metaimgfile.cpp:400-498 | For an entry of the image that is chosen, in range and in whole blocks, unless the map is full or 32 bits are exceeded: a new entry whose start and length lead to the very bytes of the image, behind everything there was, and which copies name and type. |
| TakeoverBytes.VolumeOnDisk | utils/metaimgfile.cpp:500-535 | For a single volume: the last entry carries name, type, place, length and status, and the disk shows the image there. |
| Takeover.EntriesDroppedIff | utils/metaimgfile.cpp:671-676 | Entries of an image are dropped exactly when they exceed the room declared when the map was loaded, although the grown map has room for all of them and eight more. |
| Takeover.FullMapDropsPartition | utils/metaimgfile.cpp:601-676 | A concrete disk and image for which the map grows by 61 blocks and the only partition of the image is dropped all the same. |
| TakeoverRuns.RunKeepsAll | utils/metaimgfile.cpp:400-535 | After any sequence of partitioned images and single volumes every exact partition ever added shows the bytes of its image at its position without a gap, its entry names that position modulo 2^32, and partitions of different images do not overlap. |
| PartitionReads.ReadPartition | utils/metaimgfile.cpp:340-368 | After any such sequence, reading a partition at its position returns its full length and the bytes of its image. |
| PartitionReads.ReadEntry | utils/metaimgfile.cpp:340-368 | On a disk whose size fits 32-bit block numbers the same holds for reading where its entry in the map says. |
| PartitionReads.AddAndRead | utils/metaimgfile.cpp:400-498 | Adding an image and reading where the map now lists one of its exact partitions gives the bytes which that partition has in the image. |
| PartitionReads.AddImage | utils/metaimgfile.cpp:301-311 | Adding a partitioned image carries any run of additions on by one step. |
| PartitionReads.AddVolume | utils/metaimgfile.cpp:301-304 | And so does adding a single volume. |
| TakeoverRuns.ContiguousRunIff | utils/metaimgfile.cpp:400-563 | Over any sequence the chunks stay contiguous and end on the disk size exactly when every image that is appended is a whole number of blocks. |
| TakeoverRuns.EntryLeadsThereIff | utils/metaimgfile.cpp:478-488 | Its entry leads to its position exactly when the first block number fits 32 bits, and, unless a volume was left out on a disk past that limit, it ends within `sbBlkCount` exactly when its end does. |
| TakeoverRuns.CountRight | utils/metaimgfile.cpp:539-552 | Once something was added, `sbBlkCount` is the number of blocks, or all ones past 32 bits, over any sequence in which no volume is left out or whose size fits. |
| TakeoverRuns.GrowthPastLimit | utils/metaimgfile.cpp:645-658 | A growth step that takes the first block of a partition past 2^32 makes its entry name the place 2^32 blocks below. |
| TakeoverRuns.RunPastLimit | utils/metaimgfile.cpp:500-535 | Two volumes on a disk that ends 80 blocks below that limit: the second is left out, but the growth it causes moves the first past the limit, whose entry then says block 42. |
| TakeoverRuns.AddressableRun | utils/metaimgfile.cpp:539-552 | On a disk whose size fits 32-bit block numbers every such partition is shown without a gap at its current start and ends within `sbBlkCount`. |
| TakeoverRuns.EarlierStaysRight | utils/metaimgfile.cpp:601-668 | Any step moves earlier partitions by the growth of the map, keeps their bytes free of gaps, and adds behind all of them. |
| TakeoverRuns.LedgerComplete | utils/metaimgfile.cpp:471-491 | These results cover every exact entry that any step of the sequence added. |
| TakeoverBytes.ImageInRun | utils/metaimgfile.cpp:400-498 | After any sequence the partition of such an image entry is among those that are kept, and so can be read. |
| TakeoverRuns.LedgerHasVolumes | utils/metaimgfile.cpp:518-533 | And every single volume that a step listed. |
| Takeover.OddImageLeavesGap | utils/metaimgfile.cpp:539 | When an image is not a whole number of blocks, then after the next one is appended every range over the end of the first has a gap, so that reads and writes there fall short. |
| Takeover.GapIff | utils/metaimgfile.cpp:537-563 | The chunks stay contiguous exactly when they were and the disk ended on its size; the disk ends on its size afterwards exactly when the image is a whole number of blocks. |
| MetaImgFile.MetaImgFile.AddPartitionFromImage | utils/metaimgfile.cpp:500-535 | A single volume: room is made, the entry is added if the map has room and the image appended; a volume of too many blocks is left out after room was made. |
| Takeover.VolumeAdded | utils/metaimgfile.cpp:506-534 | The entry of the volume names the place where the disk shows the whole image without a gap, up to the new end; the old partitions and their coverage are kept, and contiguity depends on the sizes as above. |
| ApmImages.VolumeFields | utils/metaimgfile.cpp:521-530 | The entry of a volume carries its start, its size and the status of a mountable partition. |
| ApmImages.VolumeTexts | utils/metaimgfile.cpp:521-530 | The name stands at 16 and the type at 48, up to the first zero or 32 bytes, with zeros behind, and the signature at 0. |
| ApmImages.VolumeFitsIff | utils/metaimgfile.cpp:508-519 | A volume fits exactly when the number behind its last block is below 2^32 - 1. |
| Block0Endian.Block0.EndianSwap | utils/metaimgfile.cpp:87-123 | The two-pass in-place swap of block 0 and its driver entries, with the driver count cut to what fits the block. |
| Block0Endian.RoundTripIff | utils/metaimgfile.cpp:87-123 | Swapping to host order and back restores block 0 exactly when the driver count fits the block; otherwise it names what is left different. |
| Block0Endian.CountSurvivesIff | utils/metaimgfile.cpp:96-101 | The count is kept exactly when that many entries fit the block size; below 18 bytes exactly when it is what the negative limit becomes in 16 bits. |
| Block0Endian.CountCut | utils/metaimgfile.cpp:93-122 | In either direction the count left is the given one or the largest that fits the block, and the entries swapped are as many as were given. |
| Block0Bytes.ToHost | utils/metaimgfile.cpp:125-130 | With the signature and a fitting driver count, the host sees what the big-endian bytes mean, in the header and every driver entry. |
| Block0Bytes.FromHost | utils/metaimgfile.cpp:132-137 | What the host holds becomes the bytes that mean it. |
| Block0Bytes.ThereAndBack | utils/metaimgfile.cpp:125-137 | Without an edit in between, both conversions are the identity. |
| Block0Bytes.GrowthThroughHost | utils/metaimgfile.cpp:627-637 | Converting block 0, moving the block count and the drivers in host order and converting back is moving the big-endian fields in place. |
| Block0Bytes.CountThroughHost | utils/metaimgfile.cpp:543-553 | The same for setting the block count. |
| Block0Bytes.UnsignedDriversStay | utils/metaimgfile.cpp:93-122 | Without the signature in either order the header is converted but the driver entries are not. |
| Block0Bytes.UnsignedDriverMisplaced | utils/metaimgfile.cpp:630-637 | So a growth whose low byte exceeds its top byte by more than one, modulo 256, leaves every driver at another block than the one it moved to, whichever block it had. |
| PowerShifts.MaskgIsRotMask | cpu/ppc/poweropcodes.cpp:258-281 | maskg equals the rotate mask for every start and end, the wrapping ones included. |
| PowerShifts.RotMaskBits | cpu/ppc/poweropcodes.cpp:33-37 | Bit k, from the most significant, is set exactly when it lies in the possibly wrapping range. |
| PowerShifts.LeftChainMultiplies | cpu/ppc/poweropcodes.cpp:378-411 | sle then sleq upward over n words computes N * 2^s mod 2^(32n), for every n and s. |
| PowerShifts.RightChainDivides | cpu/ppc/poweropcodes.cpp:538-593 | sre then sreq downward over n words computes floor(N / 2^s). |
| PowerShifts.SignedRightChainDivides | cpu/ppc/poweropcodes.cpp:556-593 | Starting with srea computes the signed floor. |
| PowerShifts.PairLeftMultiplies | cpu/ppc/poweropcodes.cpp:450-486 | slq then sllq multiply any 64-bit pair by 2^n mod 2^64 for every n in 0..63, also where one word comes only from MQ. |
| PowerShifts.PairRightDivides | cpu/ppc/poweropcodes.cpp:631-670 | srq then srlq divide any 64-bit pair by 2^n for every n in 0..63. |
| PowerShifts.SleqWord | cpu/ppc/poweropcodes.cpp:397-411 | One sleq shifts in what MQ carries and leaves in MQ what it shifts out. |
| PowerShifts.SreqWord | cpu/ppc/poweropcodes.cpp:580-593 | One sreq divides the word together with the remainder that MQ brings down. |
| PowerRegisters.RunLeftMultiplies | cpu/ppc/poweropcodes.cpp:378-411 | Executed on any list of distinct registers, the left chain shifts the number they hold and changes no other register. |
| PowerRegisters.RunRightDivides | cpu/ppc/poweropcodes.cpp:538-593 | The same for the right chain. |
| PowerRegisters.RunSignedRightDivides | cpu/ppc/poweropcodes.cpp:556-593 | The same for the signed right chain. |
| PowerRegisters.CarryIffRounded | cpu/ppc/poweropcodes.cpp:561-568 | srea sets XER[CA] exactly when the number is negative and was rounded. |
| PowerRegisters.SreaPlusCarryTruncates | cpu/ppc/poweropcodes.cpp:557-575 | The result of srea plus the carry is the quotient rounded toward zero. |
| PowerBits.ExecutedBits | cpu/ppc/poweropcodes.cpp:258-670 | Every bit that each of the ten instructions leaves in rA, in terms of the bits of rS, rB and MQ, for any registers. |
| PowerBits.ExecutedMq | cpu/ppc/poweropcodes.cpp:378-670 | Every bit that each leaves in MQ: the word turned by the amount, or what was there. |
| PowerBits.ExecutedOthers | cpu/ppc/poweropcodes.cpp:378-670 | No other register changes. |
| PowerBits.ExecutedCr | cpu/ppc/ppcopcodes.cpp:53-65 | CR changes only for the recording form, and then as the sign of the result and XER[SO] say. |
| PowerBits.ExecutedXer | cpu/ppc/poweropcodes.cpp:556-575 | XER changes only for srea, and only in CA, which says that a negative number was rounded. |
| PowerBits.OperandFields | cpu/ppc/ppcdechelpers.h:25-39 | rS, rA and rB are the five-bit fields of the opcode word from bit 6 on. |
| PowerBits.AmountIs | cpu/ppc/poweropcodes.cpp:381 | The shift amount is rB modulo 32, or 64 with the bit that asks for 32 more. |
| PowerBits.RunPairLeftMultiplies | cpu/ppc/poweropcodes.cpp:450-486 | Executed on registers, slq on the low word and then sllq on the high word multiply by 2^n modulo 2^64, and no third register changes. |
| PowerBits.RunPairRightDivides | cpu/ppc/poweropcodes.cpp:631-670 | And srq on the high word and then srlq on the low word divide by 2^n. |
| PowerOpcodes.PpcState.DoSle | cpu/ppc/poweropcodes.cpp:378-392 | Operand decoding, result, MQ, XER and CR field 0 of the instruction: the whole new state is that of `PowerRegisters.Executed`. |
| PowerOpcodes.PpcState.DoSleq | cpu/ppc/poweropcodes.cpp:397-411 | Operand decoding, result, MQ, XER and CR field 0 of the instruction: the whole new state is that of `PowerRegisters.Executed`. |
| PowerOpcodes.PpcState.DoSre | cpu/ppc/poweropcodes.cpp:538-551 | Operand decoding, result, MQ, XER and CR field 0 of the instruction: the whole new state is that of `PowerRegisters.Executed`. |
| PowerOpcodes.PpcState.DoSreq | cpu/ppc/poweropcodes.cpp:580-593 | Operand decoding, result, MQ, XER and CR field 0 of the instruction: the whole new state is that of `PowerRegisters.Executed`. |
| PowerOpcodes.PpcState.DoSrea | cpu/ppc/poweropcodes.cpp:556-575 | Operand decoding, result, MQ, XER and CR field 0 of the instruction: the whole new state is that of `PowerRegisters.Executed`. |
| PowerOpcodes.PpcState.DoSlq | cpu/ppc/poweropcodes.cpp:470-486 | Operand decoding, result, MQ, XER and CR field 0 of the instruction: the whole new state is that of `PowerRegisters.Executed`. |
| PowerOpcodes.PpcState.DoSllq | cpu/ppc/poweropcodes.cpp:450-465 | Operand decoding, result, MQ, XER and CR field 0 of the instruction: the whole new state is that of `PowerRegisters.Executed`. |
| PowerOpcodes.PpcState.DoSrq | cpu/ppc/poweropcodes.cpp:653-670 | Operand decoding, result, MQ, XER and CR field 0 of the instruction: the whole new state is that of `PowerRegisters.Executed`. |
| PowerOpcodes.PpcState.DoSrlq | cpu/ppc/poweropcodes.cpp:631-648 | Operand decoding, result, MQ, XER and CR field 0 of the instruction: the whole new state is that of `PowerRegisters.Executed`. |
| PowerOpcodes.PpcState.DoMaskg | cpu/ppc/poweropcodes.cpp:258-281 | Operand decoding, result, MQ, XER and CR field 0 of the instruction: the whole new state is that of `PowerRegisters.Executed`. |
| PowerRegisters.RecordedSign | cpu/ppc/ppcopcodes.cpp:53-63 | Exactly one of LT, GT and EQ of CR field 0 is set, by the sign of the result. |
| PowerRegisters.RecordedRest | cpu/ppc/ppcopcodes.cpp:53-65 | SO of CR field 0 is XER[SO], and the other fields of CR stay. |
| StringLoad.ComparedBits | cpu/ppc/poweropcodes.cpp:247-252 | lscbx sets EQ exactly when a match was found, clears LT and GT, copies SO and keeps the other fields of CR. |
| PowerOpcodes.PpcState.DoLscbx | cpu/ppc/poweropcodes.cpp:204-253 | The registers from rD on, modulo 32 and without rA and rB, hold the loaded bytes; the low seven XER bits count them, its other bits stay; EQ of CR field 0 says whether a match was found. |
| PowerOpcodes.PpcState.LoadString | cpu/ppc/poweropcodes.cpp:217-245 | The byte loop of lscbx against its specification, by loop invariant. |
| StringLoad.StopsAtFirstMatch | cpu/ppc/poweropcodes.cpp:217-241 | lscbx loads min(n, first match index + 1) bytes, and ends with the match byte exactly when there is a match among the first n. |
| StringLoad.PackedBytes | cpu/ppc/poweropcodes.cpp:220-229 | A register holds its four bytes in order from the most significant, zeros after the last. |
| StringLoad.SlotInverse | cpu/ppc/poweropcodes.cpp:226 | Every group of four bytes has one register and every register one group, so none is written twice. |
| StringLoad.LastGroup | cpu/ppc/poweropcodes.cpp:243-245 | Storing a full or partial group gives the registers of the longer load. |
| LscbxBytes.RegisterByte | cpu/ppc/poweropcodes.cpp:217-245 | Byte j of the register i after rD, modulo 32, is the byte of memory at distance 4i + j, or zero behind the last loaded byte; rA, rB and the registers not reached stay. |
| LscbxBytes.LoadedAt | cpu/ppc/poweropcodes.cpp:217-235 | Byte k comes from the address plus k, modulo 2^32. |
| LscbxBytes.LoadedUntil | cpu/ppc/poweropcodes.cpp:231-241 | Loading ends with the first byte that is the key. |
| LscbxBytes.LoadedAll | cpu/ppc/poweropcodes.cpp:217-241 | And without such a byte after all bytes asked for. |
| LscbxBytes.AddressIs | cpu/ppc/poweropcodes.cpp:207 | The address is rB plus rA modulo 2^32, without rA when that is register 0. |
| LscbxBytes.CountAndKey | cpu/ppc/poweropcodes.cpp:209-211 | The count is XER modulo 128 and the key its third byte. |
| Adler.Adler32Slow | machines/machinefactory.cpp:132-140 | The byte-wise checksum is that of section 8.2 of RFC 1950: one plus all bytes, and the sum of those sums, modulo 65521. |
| Adler.Adler32 | machines/machinefactory.cpp:142-178 | The 16-fold unrolled checksum with deferred modulo is the same function, for every buffer of every length. |
| Adler.NoOverflow | machines/machinefactory.cpp:152-163 | At 0x16ABF600 bytes between reductions neither 64-bit accumulator overflows, whatever the bytes. |
| Adler.AdlerOfZeros | machines/machinefactory.cpp:132-140 | The checksum of n zeros is 1 in the lower half and n modulo 65521 in the upper. |
| Adler.AdlerOneByte | machines/machinefactory.cpp:132-140 | Changing a byte changes the lower half by the difference and the upper by that times the distance from the end, modulo 65521; with the zeros this determines the checksum. |
| Adler.Do16 | machines/machinefactory.cpp:149 | Sixteen steps of wrapping 64-bit accumulators advance both sums by sixteen bytes. |
| RomChecksums.OldWorldChecksum | machines/machinefactory.cpp:180-188 | The wrapping sum of the big-endian 16-bit words. |
| RomChecksums.LoopEndsIffEven | machines/machinefactory.cpp:180-188 | The loop over 16-bit words ends exactly for even lengths: an odd one wraps around without meeting 0. |
| RomChecksums.LoopEndsIffWholeWords | machines/machinefactory.cpp:1071 | For an OldWorld ROM it ends exactly when the size is even or at least 3 MB. |
| RomChecksums.OldWorldChecksum64 | machines/machinefactory.cpp:190-197 | The wrapping sum of the 64-bit words that do not begin in the 40 bytes of the ConfigInfo sums. |
| RomChecksums.WordSumOneByte | machines/machinefactory.cpp:180-188 | A byte counts 256 times or once in the sum, by its place in its word; so the sum is determined by the bytes. |
| RomChecksums.QwordSumOneByte | machines/machinefactory.cpp:190-197 | A byte counts by its place in its 64-bit word, unless that begins in the 40 bytes. |
| RomChecksums.CheckNewWorld | machines/machinefactory.cpp:1004-1063 | Finds whether every NewWorld field is right, and stores the right values of the wrong ones. |
| RomChecksums.CheckOldWorld | machines/machinefactory.cpp:1064-1092 | The same for the OldWorld sums, where the 64-bit sum is taken after the 32-bit one was stored. |
| RomChecksums.CheckRom | machines/machinefactory.cpp:995-1102 | Reports a match exactly when every stored checksum of the ROM's layout is right, and leaves the fixed ROM if asked to. |
| RomLayouts.ConfigRom | machines/machinefactory.cpp:997-1036 | With 0xC99C or 0xC03C at 0x3F00 a ROM has the four checksums at 0x3EFC, 0x3F7C, 0x7FFFC and 0xFFFFC over the given ranges, whatever its dates; matching is that all are right, and fixing makes them so and changes nothing else. |
| RomLayouts.LateRom | machines/machinefactory.cpp:996-1040 | Without it, the word at 8 within 0x19980711 to 0x20051231 decides alone and otherwise the one at 12; after 0x19980710 there are the three checksums at 0x3FFC, 0x7FFFC and 0xFFFFC. |
| RomLayouts.EarlyRom | machines/machinefactory.cpp:996-1040 | From 0x19980101 to 0x19980710 there are two, at 0x3FFC and at 0xFFFFC from 0x4000 on. |
| RomLayouts.OldWorldRom | machines/machinefactory.cpp:1064-1092 | For any other date the word at 0 is the sum of the 16-bit words up to 3 MB, and in a ROM of 4 MB with a ConfigInfo offset up to 0xFFF8C the field at 0x300020 plus the offset is the sum of the 64-bit words. |
| RomLayouts.OldWorldFixes | machines/machinefactory.cpp:1071-1092 | What fixing leaves of it, byte for byte. |
| RomFixing.FieldsSeparate | machines/machinefactory.cpp:1010-1042 | In each NewWorld layout no stored field lies in a summed range or overlaps another field. |
| RomFixing.FixStores | machines/machinefactory.cpp:1044-1063 | After fixing, every field holds what was calculated from the original bytes. |
| RomFixing.LayoutKept | machines/machinefactory.cpp:995-1005 | Fixing does not change which layout the ROM has. |
| RomFixing.FixingIsIdempotent | machines/machinefactory.cpp:995-1091 | A second pass over a fixed ROM finds every checksum right and changes nothing, in each layout, unless storing the 64-bit sum moves the ConfigInfo offset. |
| RomFixing.OneFixIffOffsetStays | machines/machinefactory.cpp:1080-1092 | For each ConfigInfo offset: one pass is enough for every OldWorld ROM with that offset if and only if the offset is not in 0x5A..0x63; for those a ROM that stays wrong is given. |
| RomFixing.SameQwords | machines/machinefactory.cpp:190-197 | The 64-bit sum does not depend on the bytes of its own field, at any alignment of the offset. |
| BigEndian.PutGet64 | core/memaccess.h:132-140 | A big-endian field reads back what was written. |
| BigEndian.PutDigits | core/memaccess.h:80-86 | The bytes of a stored number are its digits to the base 256, the most significant first. |
| BigEndian.PutDigits64 | core/memaccess.h:132-140 | The first half of a stored 64-bit number is its upper word. |
| MathUtils.U32xU64 | core/mathutils.h:27-33 | hi * 2^64 + lo == a * b, with every 64-bit wrap-around and the carry found by comparison. |
| MathUtils.U32xU64Low | core/mathutils.h:35-41 | hi * 2^32 + lo == a * b. |
| MathUtils.U64xU64 | core/mathutils.h:43-49 | hi * 2^64 + lo == a * b for all 64-bit a and b. |
| EndianSwap.WrittenReadsBack | core/endianswap.h:132-212 | For details 32 * flags + 4 * size + offset, reading back a written register, directly or byte-swapped with extract_with_wrap_around, gives the value cut to the size. |
| EndianSwap.WritesFrom | core/endianswap.h:177-212 | With such details a write changes exactly the lanes offset, offset + 1, ... modulo 4, and puts the value there from its most significant byte on. |
| EndianSwap.HalfRead | core/endianswap.h:144-152 | A two-byte read takes the two lanes from the offset on, over into the next register. |
| EndianSwap.WordRead | core/endianswap.h:154-165 | The same for four bytes. |
| EndianSwap.ReadsFrom | core/endianswap.h:132-169 | And a read takes the lanes from the offset on, over into the next register, the first as the most significant byte. |
| EndianSwap.ReadsAsHelper | core/endianswap.h:132-223 | It equals REG_READ_HELPER at that offset on the byte-swapped pair. |
| EndianSwap.OtherSizes | core/endianswap.h:166-168 | Any other size gives all ones, for reads and writes. |
| EndianSwap.LaneDigit | core/endianswap.h:133-142 | Lane j of a register is its j-th digit to the base 256. |
| Translations.DumpTranslations | debugger/debugger.cpp:141-169 | The printed ranges are ordered, disjoint and maximal, and expand to exactly the page map, but for a last stretch that page 0 continues; so the listing is lossless exactly when page 0 does not physically continue the last page. |
| Translations.LosslessIff | debugger/debugger.cpp:147-168 | The listing gives back the page map exactly when page 0 does not continue the last page. |
| Translations.NotJoined | debugger/debugger.cpp:149-153 | Two neighbouring lines never describe one stretch. |
| Translations.LineAdded | debugger/debugger.cpp:150-157 | A finished stretch becomes a line that expands to its pages, also where the end address wraps to 0. |
| Translations.PagesTold | debugger/debugger.cpp:141-169 | A page between the ends of a line is mapped to the address at the same distance from the physical start; a mapped page is in no line exactly when it is in the last stretch and page 0 follows the last page. |
| Translations.LinesWhole | debugger/debugger.cpp:149-153 | Lines are whole pages in order, with the physical end modulo 2^32, and no two neighbours continue each other. |

## Left out

- Threads and locks: `process_timers` is modelled sequentially, without calls of it from a callback; the clock is a parameter that stands still during a call, and a callback sees the log instead of the two times it is passed.
- TimerManager.TimerManager.ProcessTimers: refines the state machine only while fewer than 2^32 timers were created, as ids repeat afterwards; `fuel` bounds the number of firings, since the loop need not end; `TimerProcess.Terminates` says when it does.
- TimerManager.TimerManager.CancelTimer: once 2^32 timers were created and ids repeat, only the removal of the first match in the vector is stated.
- TimerSafety.CyclicRate: needs that no re-arming so far went past 2^64, because a wrapped timeout is due at once.
- TimerQueue.PriorityQueue.Push: the heap algorithms of the C++ library are written as sift loops over the vector as a value.
- MetaImgFile.MetaImgFile.Read: stores are byte arrays that deliver every byte asked for, so short reads and writes of files are not modelled; disk offsets are unbounded, except that `Takeover.RelocationExact` asks that the appended image ends below 2^64.
- MetaImgFile.MetaImgFile.AddPartitionsFromImage: the map is loaded beforehand (`LoadMap`, from an array in place of the file `apm_all_drivers.bin`), so the first image that becomes the second after the map is loaded goes through the same method; an image none of whose wanted partitions is in range is excluded, because the source then appends a byte from before the image (`ApmImages.NoStretchAppendsOneByte`), which has no place in its store.
- MetaImgFile.MetaImgFile.LoadMap: asks that the file with the map is a whole number of blocks and has a block 0 with its signature and a driver count that fits.
- MetaImgFile.MetaImgFile.ReservePartitions: one growth step from the room the map declares; entries that are not in use are whatever the new memory holds.
- ApmGrowth.MoveMap: asks for a block 0 with its signature and a driver count that fits, which the file with the map must provide; the map is kept in big-endian order, and `Block0Bytes` shows that converting it to host order and back comes to the same for such a block 0.
- ApmEntries.AppendedEntry: entries are kept in big-endian order throughout; converting an entry swaps the same fields both ways.
- TakeoverRuns.EntryLeadsThereIff: leaves `sbBlkCount` open when a volume was left out and the size needs more than 32 bits, as growth then adds to the all ones there.
- TakeoverRuns.RunKeepsAll: asks that no partitioned image ends at or past 2^64 when it is appended; partitions of one image overlap on the disk as they do in the image.
- Opening and recognising image files, closing, and dumping: I/O and text.
- POWER instructions that do not thread bits through MQ (`abs`, `doz`, `mul`, `div`, `maskir`, `rlmi`, `rrib`), and the immediate and algebraic variants `sliq`, `slliq`, `sriq`, `srliq`, `sraq`, `sraiq`: the same shifts with another operand.
- PowerOpcodes.PpcState.DoLscbx: memory is a total map from addresses to bytes, so faults in the middle of the load are not modelled.
- RomChecksums.OldWorldChecksum: an odd length is excluded, because the loop never ends on it (`RomChecksums.LoopEndsIffEven`).
- RomChecksums.CheckOldWorld: for the same reason a ROM of odd size below 3 MB is excluded.
- RomChecksums.CheckRom: excludes the same OldWorld ROMs and no NewWorld ones; the messages, version fields and the search for a machine name are not modelled.
- Adler.Adler32: the final bitwise or of the two sums is an addition, as their bits do not overlap.
- EndianSwap.WrittenReadsBack: the access details are a number taken apart by division instead of masks.
- Translations.DumpTranslations: the page map is a parameter in place of calls to the MMU, and lines are values instead of text.
- `extract_bits`, `insert_bits` and the other helpers of core/bitops.h: one-line facts.
- The MMU, DBDMA, disassembler, debugger commands, machine descriptions and configuration: not part of these cores.
