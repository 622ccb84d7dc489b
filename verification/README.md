# librorc in Dafny

librorc drives a PCI Express card that moves detector data by DMA. This project models the parts of it in which several
functions have to agree, and proves what they promise together. `dafny verify dfyconfig.toml` checks everything.

## What is modelled

**The event ring** (`RingProtocol`, `RingInvariant`, `RingRuns`, `RingSpec`, `ReportLayout`, `EventStream`, `Slots`).
The device appends descriptors to a report ring, a receiver takes them in order under one mutex, and releasers hand
them back in any order under another. `RingProtocol` is a state machine in which every access to shared memory is a
step of its own: the device's write, the three steps of a receive, the marking of a release, each round of the
retirement loop, each descriptor of a memset, the register writes and the sync bit. Its history counters say how many
events were written, received, released, retired, zeroed and acknowledged. `RingInvariant` is what every step keeps,
`RingRuns` what follows for whole runs, including that the ring refines an unbounded queue. `RingSpec` collapses a
call to one step, shows that a call run on its own is that step, and from there that the order of releases does not
matter. The class `EventStream.EventStream` has the fields and loops of the source, publishes through a `DmaChannel`,
and is proved equal to those one-step functions. `ReportLayout` lays the ring out in bytes, which is what the
published read pointer counts.

**Scatter-gather translation** (`ScatterGather`, `Windows`, `DescriptorRam`, `Buffer`, `DmaChannel`, `Pages`,
`RateLimiter`). Every list means a sequence of physical byte addresses, `Bytes`. Coalescing, splitting, programming
the descriptor RAM and walking it keep that meaning; coalescing leaves nothing apart that its guard lets it merge; a
circular window composed from a buffer means the window exactly when every segment ends at a page; the two address
lookups undo each other. The page size is any divisor of 2^32. The classes hold the source's loops.

**Flash programming** (`FlashGeometry`, `NorChip`, `Flash`). A NOR chip as a state machine (programming can only clear
bits, blocks have locks, banks have command modes, slow operations need an arbitrary number of status reads) and the
driver on it. Writing a file to a prompt chip, one that is at rest and finishes every operation in time, is proved to
leave exactly the bytes of the file, erased words to the end of the last erased block, and everything else as it was.
On a chip that does not, the driver and the chip may lose step with each other; even then nothing behind the erased
blocks changes.

**DDR3 replay** (`Replay`, `ReplayBoard`). Events are cut into blocks with header fields; a decoder reads them back
from the board's memory, for each channel exactly its own, however the writes for several channels were interleaved.

**The simulation link** (`ByteOrder`, `Tlp`, `TrnMonitor`, `Link`, `LinkLayout`, `HostLink`, `SimulationLink`,
`Completions`, `HostMemory`). Packets on the 128-bit interface become messages, messages become actions of the host,
and read requests are answered in completions (PCI Express Base Specification, sections 2.2 and 2.2.9). End to end,
the host's buffers behave like one physical memory towards the device.

**The reference clock** (`RefClock`, `Oscillator`). The divider search in exact reals, the exact set of frequencies it
can reach, when it returns the pair its comment asks for, the error of the realised frequency, the packing of the
settings into the oscillator's registers, and what reading them back after programming recovers.

`Bits`, `Words`, `Remainders` and `Options` are shared arithmetic and types.

## What the environment is assumed to do

- The device writes its next descriptor, with a nonzero size, only while that slot is not the one named by its report read
  pointer (`include/librorc/dma_channel.hh:247-249`). A descriptor write is one step.
- Events are released by references from `getNextEvent`, once each (`include/librorc/event_stream.hh:125-131`). The class
  takes any reference, as the source does.
- The flash chip takes buffers of at most 32 words inside one block, refuses a word count of zero and locked blocks, keeps
  the first error until the status is cleared, and ignores writes while it is busy.
- The oscillator clears its new-frequency flag after some number of reads.
- The replay decoder is not part of the repository: it selects words by the mask, ends an event at the end-of-event
  flag and stops at the end flag.

## Where the code and its documentation disagree

The model follows the code.

- `src/buffer.cpp:342-347` promises coalesced lengths of 32 bits, but the guard adds the length of the entry merged
  last. `ScatterGather.CoalesceCanExceed32Bits` is an input that breaks the promise, and
  `ScatterGather.CoalesceFitsExactlyWhen` says when it holds. A list entry of 2^32 bytes or more makes the entry count
  given to the device differ from the number of descriptors in its RAM (`DescriptorRam.EntryCountMatches`).
- `include/librorc/event_stream.hh:201-205` says received but not released; `getNumberOfPendingReleases` counts released
  but not retired. `RingSpec.PendingIsNotAsDocumented` is a run on which they differ. With p the oldest event not handed
  back, they agree if and only if the events handed back are half of those received plus p
  (`RingSpec.PendingIsAsDocumentedExactlyWhen`); for a caller that hands back in order, only when it holds none
  (`RingSpec.PendingOfInOrderCaller`).
- `getRingbufferFillCount` is one less than the number of events between the two indices, and n - 1 when there are none
  (`RingSpec.FillCountIs`).
- `findFpgaSyncWord` returns the offset of the second half of the word, two more than documented
  (`include/librorc/flash.hh:382-383`, `Flash.Flash.FindFpgaSyncWord`).
- `eraseBlock` does not look at the error bits, so erasing a locked block succeeds, and a timeout whose last status is
  zero is reported like a success (`Flash.Flash.EraseBlock`).
- A file whose length is one more than a multiple of 64 ends in a buffer of no words. The chip refuses it, the loop ends,
  `flashWrite` returns 0 and the bank is left showing its status (`Flash.BanksAfter`).
- An address in a segment that reaches the end of the 64-bit address space is not found by `physAddrToOffset`
  (`ScatterGather.AllAddressesResolveExactlyWhen`).
- A 32-bit write of one word ends in its header beat, which the monitor does not examine for the end of the frame: it is
  lost, and only it (`Link.PacketIsReceived`, `Link.AllDeliveredExactlyWhen`).
- `calcNewOpts` finds a pair but stores none, and then returns fields it never set, for exactly three frequencies: 945,
  1134 and 1417.5, of which six, five and four times are the upper end 5670 (`RefClock.CalcNewOpts`, result `Unset`).
- The comment in `src/refclk.cpp:181-182` asks for the lowest N1 with the highest HS_DIV; the code minimises the DCO
  frequency. At 500 the two differ (`RefClock.FirstIsNotAlwaysReturned`). They agree if and only if the next lower
  product of legal dividers misses the range (`RefClock.FirstIsReturnedExactlyWhen`).

## Where composing a window works

`composeSglistFromBufferSegment` takes the bytes up to the next page boundary from the address alone. Unless segments
happen to continue each other physically, every window comes out right if and only if every segment ends on a page
boundary or one byte behind one (`Windows.ComposeIsWindowExactlyWhen`); where segments start does not matter. Which
tables the kernel hands out is not part of this model. `Windows.PartialPageIsOverrun` is a table that a buffer of one
and a half pages would have if its segment were not rounded up.

## Model

| member | source | states |
|---|---|---|
| Slots.SlotIsRemainder | src/event_stream.cpp:347-360 | The slot of an event is its number modulo the ring size, which stepping with wrap-around reaches without a division. |
| Slots.SlotStep | src/event_stream.cpp:355 | The source's wrap-around increment is the step to the next event's slot. |
| RingInvariant.InitialInv | src/event_stream.cpp:214-255 | The state after initialisation meets the protocol invariant. |
| RingInvariant.StepInv | src/event_stream.cpp:347-442 | Every step of the device, the receiver or a releaser, in any order, keeps the invariant: counters in order, slots holding exactly the written and not yet zeroed descriptors, the map holding exactly the released and not retired events, pointers naming the last acknowledged event. |
| RingInvariant.DeviceRoom | src/dma_channel.cpp:581 | Starting with the report pointer on the last slot, the device stalls exactly when n - 1 events are not acknowledged: full and empty are told apart without a flag. |
| RingInvariant.DeviceWriteInv | include/librorc/dma_channel.hh:247-249 | A device write keeps the invariant. |
| RingInvariant.PeekFindsExactlyWhenNonEmpty | src/event_stream.cpp:358-361 | The receiver sees a zero size exactly when every written event has been received. |
| RingInvariant.ReleaseMarkInv | src/event_stream.cpp:433-441 | Marking a received event as released keeps the invariant. |
| RingInvariant.ReleaseStepInv | src/event_stream.cpp:398-431 | Every step of updateBufferOffsets keeps the invariant while the other parties interleave. |
| RingRuns.RunKeepsOrder | src/event_stream.cpp:347-442 | In every interleaving: acknowledged <= zeroed <= retired <= received <= written <= acknowledged + n - 1. |
| RingRuns.DeviceWritesOnlyZeroedSlots | src/event_stream.cpp:426-429 | The device only ever writes a zeroed slot, never one whose event is unreceived, unreleased or not yet zeroed. |
| RingRuns.ClearsOnlyReleasedEvents | src/event_stream.cpp:419-427 | A memset only zeroes descriptors of received and released events, oldest first, after the offset to be published was read. |
| RingRuns.DescriptorStaysUntilReleased | include/librorc/event_stream.hh:125-131 | The descriptor handed out for an event stays in its slot until that event is released. |
| RingRuns.StepRefinesQueue | src/event_stream.cpp:347-370 | Each step is one step of an unbounded queue, or none. |
| RingRuns.RunRefinesQueue | src/event_stream.cpp:347-370 | Every run behaves like one unbounded queue: what is delivered, under which reference, and when the ring reports empty. |
| RingRuns.QueueDeliversInOrder | src/event_stream.cpp:363-368 | Whatever behaves like that queue delivers the written items in order, with references counting round the ring. |
| RingRuns.KthDeliveryIsKthWrite | src/event_stream.cpp:347-370 | Over any run from the initial state the k-th successful getNextEvent returns the k-th descriptor the device wrote, with reference k mod n. |
| RingRuns.ReleaseProgress | src/event_stream.cpp:408-424 | Every step inside a release decreases a bound on the set map entries and the remaining work, so the loop ends even when all entries are set. |
| RingRuns.Finish | src/event_stream.cpp:433-442 | A release left to run ends, keeps the invariant and touches neither history nor receive index. |
| RingRuns.DeviceStallsExactlyWhenFull | src/dma_channel.cpp:581 | The device may write exactly while fewer than n - 1 events are unacknowledged. |
| RingSpec.RunLengthIs | src/event_stream.cpp:408 | The number retired by one call is the length of the contiguous run of set map entries. |
| RingSpec.IdleIsSettled | src/event_stream.cpp:398-431 | Between calls the ring is fully determined by what was written, received and released. |
| RingSpec.RetiredIsReleasedPrefix | src/event_stream.cpp:398-424 | At rest exactly the released prefix is retired: the published pointers never pass an unreleased event. |
| RingSpec.SettledUnique | src/event_stream.cpp:398-442 | Two rings at rest with the same history have the same slots, map, indices and published pointers. |
| RingSpec.SettledRelease | src/event_stream.cpp:433-442 | Releasing an outstanding event leaves the ring at rest with that event added to the released ones. |
| RingSpec.ReleaseIsOneStep | src/event_stream.cpp:433-442 | A release run step by step ends in the state that the one-step release computes. |
| RingSpec.ReceiveIsOneStep | src/event_stream.cpp:347-370 | A receive run step by step is the one-step receive: it succeeds exactly when an event is left and returns that event. |
| RingSpec.InterleavingsAgree | src/event_stream.cpp:347-442 | Any two interleavings with the same writes, receives and releases and no release under way agree on the whole ring. |
| RingSpec.ReleaseAllSettles | src/event_stream.cpp:433-442 | Releasing a list of outstanding events leaves the ring at rest with all of them released. |
| RingSpec.ReleaseOrderIrrelevant | src/event_stream.cpp:398-442 | Releasing the same outstanding events in any order gives the same ring and the same published pointers. |
| RingSpec.ReleasingEverythingUnblocks | src/event_stream.cpp:398-442 | With everything received and released the device can write again, in any ring of at least two slots. |
| RingSpec.PendingCountsReleasedNotRetired | src/event_stream.cpp:372-380 | Successful releases are the retired events plus the pending count, and at rest the entry at the release index is not pending. |
| RingSpec.PendingIsAsDocumentedExactlyWhen | include/librorc/event_stream.hh:201-205 | With p the oldest event not handed back, the count is the number handed back minus p, and the documented number if and only if twice the number handed back is the number received plus p. |
| RingSpec.PendingOfInOrderCaller | include/librorc/event_stream.hh:201-205 | For a caller that hands events back in order the count is 0, and right if and only if the caller holds none. |
| RingSpec.PendingIsNotAsDocumented | include/librorc/event_stream.hh:201-205 | A run on which the pending count is not the documented number. |
| RingSpec.FillCountIs | src/event_stream.cpp:382-390 | The fill count is (received - retired - 1) mod n once something was received, hence never the number of events in between. |
| EventStream.EventStream.constructor | src/event_stream.cpp:214-255 | On a configured channel the initial ring is the protocol's initial state. |
| EventStream.EventStream.GetNextEvent | src/event_stream.cpp:347-370 | The call is the one-step receive, and points the caller at the descriptor's offset. |
| EventStream.EventStream.RetireOldest | src/event_stream.cpp:409-415 | One round of the loop: the offset is read before anything is zeroed. |
| EventStream.EventStream.RetireReleased | src/event_stream.cpp:403-424 | The loop stands at the first unreleased entry, with exactly the slots before the last wrap zeroed. |
| EventStream.EventStream.UpdateBufferOffsets | src/event_stream.cpp:398-431 | The one or two memsets and the publication through the channel registers are the one-step retirement of the released prefix; the report pointer on the device is then 32 times the slot retired last, in bytes. |
| EventStream.EventStream.ReleaseEvent | src/event_stream.cpp:433-442 | An invalid reference is refused and changes nothing, a valid one is the one-step release; if anything was retired, the report pointer is 32 times the slot before the release index. |
| EventStream.EventStream.GetNumberOfPendingReleases | src/event_stream.cpp:372-380 | Counts the set entries of the release map. |
| EventStream.EventStream.GetRingbufferFillCount | src/event_stream.cpp:382-390 | Computes the fill count that FillCountIs explains. |
| ReportLayout.ReaderFindsDescriptor | include/librorc/buffer.hh:57-66 | In the bytes of the report buffer, descriptor i is found at byte 32 * i: its offset in eight bytes, its two sizes in four each, low byte first. |
| ReportLayout.PublishedBytePosition | src/event_stream.cpp:410-412 | At rest the published report pointer is byte 32 * ((retired - 1) mod n), the position of the slot retired last, and the event pointer is the offset of the event retired last. |
| ReportLayout.InitialBytePosition | src/dma_channel.cpp:578-581 | The report pointer starts at byte 32 * (n - 1), on the last slot of a cleared ring. |
| ScatterGather.CoalesceKeepsBytes | src/buffer.cpp:336-354 | Coalescing keeps the physical address of every byte. |
| ScatterGather.BytesAt | src/buffer.cpp:399-403 | What is kept: byte k of a segment is at its address plus k modulo 2^64, behind the bytes of all segments before it. |
| ScatterGather.CoalesceBounds | src/buffer.cpp:344-350 | A merged entry stays below 2^33, no empty entry appears, and the list does not grow. |
| ScatterGather.CoalesceFitsExactlyWhen | src/buffer.cpp:342-347 | Lengths stay below 2^32 if and only if the guard, which tests the wrong length, never lets a merge through that the right length would have stopped. |
| ScatterGather.CoalesceFits32 | src/buffer.cpp:342-347 | They do when lengths do not grow along adjacent entries. |
| ScatterGather.CoalesceOfShortRuns | src/buffer.cpp:342-347 | They do when no physically contiguous run of the raw table reaches 2^32 bytes. |
| ScatterGather.CoalesceCanExceed32Bits | src/buffer.cpp:342-347 | Two adjacent entries that are merged into one of 2^32 bytes. |
| ScatterGather.CoalesceIsMaximal | src/buffer.cpp:344-350 | Of two consecutive entries, the second continues the first only if the length of the first and that of its last raw entry together reach 2^32 - 1: otherwise they would have been merged. |
| ScatterGather.CoalesceIsRuns | src/buffer.cpp:336-354 | If no contiguous run of the table reaches 2^31 bytes, the coalesced list is exactly the list of its contiguous runs, start and length. |
| ScatterGather.RunsAreBetweenBreaks | src/buffer.cpp:336-354 | The number of runs is one more than the number of places where the table does not go on where it was. |
| ScatterGather.RunsAreApart | src/buffer.cpp:336-354 | No run continues the one before it. |
| ScatterGather.SplitKeepsBytes | src/dma_channel.cpp:506-524 | Splitting one entry keeps its bytes, cuts every length below 2^32 and adds no empty piece. |
| ScatterGather.SplitCount | src/dma_channel.cpp:512-522 | An entry of at least a page P becomes floor((length - P) / (2^32 - P)) + 1 pieces. |
| ScatterGather.PrepareKeepsBytes | src/dma_channel.cpp:492-526 | The prepared list has the same bytes, 32-bit lengths and at least as many entries. |
| ScatterGather.PrepareIsIdentityExactlyWhenShort | src/dma_channel.cpp:492-526 | Preparing changes the list, and its length, exactly when some entry reaches 2^32. |
| ScatterGather.LocateIs | src/buffer.cpp:380-410 | Exactly the offsets below the total resolve, to the address of that byte, with the distance to the end of its segment. |
| ScatterGather.ResolveIs | src/buffer.cpp:413-441 | A found offset belongs to the address, and below the end of the address space every address of the buffer is found. |
| ScatterGather.LocateResolveInverse | src/buffer.cpp:380-441 | On disjoint segments the two lookups are mutual inverses on their full domains. |
| ScatterGather.AllAddressesResolveExactlyWhen | src/buffer.cpp:431 | On disjoint segments every address of the buffer is found if and only if no segment reaches the end of the address space. |
| ScatterGather.TopSegmentIsNeverResolved | src/buffer.cpp:431 | A concrete segment at the end of the address space that is never found. |
| Windows.ComposeIsWindow | src/buffer.cpp:444-495 | When every segment ends at a page, every offset below the size and every length, even several turns, succeeds, and the entries mean exactly the circular window. |
| Windows.ComposeIsWindowExactlyWhen | src/buffer.cpp:444-495 | For segments that do not continue each other, all windows come out right if and only if every segment ends on a page boundary or one byte behind one. |
| Windows.EndIsOverrun | src/buffer.cpp:467-488 | At any other segment end the window of two bytes from the last one comes out wrong. |
| Windows.ComposeRespectsPages | src/buffer.cpp:467-488 | Only the first entry may start off a page boundary, and then stays in its page; all lengths are positive and below 2^32. |
| Windows.ComposeIsGreedy | src/buffer.cpp:467-488 | No entry but the last could have been longer: one off a page boundary ends at the next one, any other has all that is left of its segment, or 2^32 bytes less a page. |
| Windows.EntryStaysInSegment | src/buffer.cpp:455-494 | An entry stays inside a segment that ends at a page, wherever the segment starts. |
| Windows.ComposeFailsOutside | src/buffer.cpp:444-495 | A start beyond the buffer fails and yields no entry. |
| Windows.PartialPageIsOverrun | src/buffer.cpp:467-488 | A segment of one and a half pages over whose end a window runs instead of wrapping. |
| Buffer.Buffer.InitializeSglist | src/buffer.cpp:325-362 | The loop computes the coalesced list, which CoalesceKeepsBytes, CoalesceIsMaximal and CoalesceIsRuns describe; an unreadable table leaves the list empty and reports -1. |
| Buffer.Buffer.OffsetToPhysAddr | src/buffer.cpp:380-410 | The loop computes the lookup that LocateIs describes. |
| Buffer.Buffer.PhysAddrToOffset | src/buffer.cpp:413-441 | The loop computes the lookup that ResolveIs describes. |
| Buffer.Buffer.ComposeSglistFromBufferSegment | src/buffer.cpp:444-495 | The loop computes the composition that ComposeIsWindow describes, and ends because every entry is nonempty. |
| DescriptorRam.ControlRoundTrip | src/dma_channel.cpp:604-608 | Write enable, target and address survive the packing into the control word. |
| DescriptorRam.ControlBits | src/dma_channel.cpp:51-54 | Bit 31 of the control word enables the write, bit 30 selects the report buffer, the rest is the address or flag. |
| DescriptorRam.EntryRoundTrip | src/dma_channel.cpp:609-627 | A descriptor survives the registers exactly when its length has 32 bits; the address registers hold its two halves, the length register the low 32 bits of the length. |
| DescriptorRam.WalkFromReads | src/dma_channel.cpp:548-565 | Walking a programmed RAM to the zero terminator reads the list back. |
| DescriptorRam.ProgrammedIs | src/dma_channel.cpp:548-565 | Entry i of a programmed RAM is element i of the list; a zero descriptor follows, and the entries behind it are as before. |
| DescriptorRam.PipelineKeepsBytes | src/dma_channel.cpp:529-567 | From the kernel's table through coalescing, splitting and programming to a walk of the RAM, the physical byte sequence is the same. |
| DescriptorRam.EntryCountMatches | src/dma_channel.cpp:584-587 | The entry count given to the device is the number of descriptors in the RAM exactly when no coalesced entry reaches 2^32. |
| DmaChannel.DmaChannel.PushSglistEntryToRAM | src/dma_channel.cpp:609-627 | A push stores one descriptor at the address, or in the FIFO, that the control word selects; no push goes beyond the RAM. |
| DmaChannel.ControlWordFields | src/dma_channel.cpp:184-188 | The sync bit, the link number and the enable bits do not overlap in the control register. |
| DmaChannel.RunningControlBits | src/dma_channel.cpp:184-188 | Of the control word written with the pointers exactly bits 0, 2, 3 and 31 are set, and those of the link number from bit 16 on. |
| DmaChannel.DmaChannel.ReadSgListEntry | src/dma_channel.cpp:457-464 | Reads back the descriptor at an index. |
| DmaChannel.DmaChannel.PrepareSgList | src/dma_channel.cpp:492-526 | The loop computes the split list. |
| DmaChannel.DmaChannel.ConfigureBufferDescriptorRam | src/dma_channel.cpp:529-567 | Too long a list gives EFBIG and writes nothing; otherwise the RAM holds the list, a terminator, and what it held beyond. |
| DmaChannel.DmaChannel.ConfigureDmaChannelRegisters | src/dma_channel.cpp:570-601 | Entry counts, sizes, the control register and the initial read pointers, one packet and 32 bytes before the ends of the buffers as ConfiguredPointersAre says. |
| DmaChannel.DmaChannel.Configure | src/dma_channel.cpp:304-333 | ENODEV without buffers; else succeeds exactly when the needed lists fit, and then both memories and the registers are set, else no register is; an outgoing channel notes the FIFO depth. |
| DmaChannel.DmaChannel.AnnounceEvent | src/dma_channel.cpp:469-487 | One FIFO entry per segment, the end-of-event flag on the last; on a channel towards the host the last two descriptors end up at RAM addresses 0 and 1. |
| DmaChannel.MisplacedKeepsTwo | src/dma_channel.cpp:469-487 | On a channel towards the host the last descriptor ends up at RAM address 1, the one before it at 0, and the rest is lost. |
| DmaChannel.DmaChannel.SetBufferOffsetsOnDevice | src/dma_channel.cpp:170-194 | Each pointer is the low register plus 2^32 times the high one, both reach the device whole, and the sync, link and enable bits are written with them. |
| DmaChannel.DmaChannel.SetRateLimit | src/dma_channel.cpp:431-441 | Stores the number of clock cycles, of 250 or 125 MHz, that fit the time per event. |
| DmaChannel.DmaChannel.RateLimit | src/dma_channel.cpp:444-454 | Computes the rate that RateReadBack explains. |
| DmaChannel.AnnouncedWindow | src/dma_channel.cpp:469-487 | An event composed from a page-backed buffer reaches the device untruncated, means the circular window, respects pages, and is flagged at exactly its last descriptor. |
| DmaChannel.ConfiguredPointersStartTheRing | src/dma_channel.cpp:578-581 | The configured pointers are the ones from which the ring protocol starts, the report pointer at byte 32 * (n - 1). |
| DmaChannel.ConfiguredPointersAre | src/dma_channel.cpp:578-581 | The pointers are one packet before the end of the event buffer and 32 bytes before that of the report buffer, modulo 2^64 if it is smaller. |
| RateLimiter.RateReadBack | src/dma_channel.cpp:431-454 | The rate read back is never below the one set, unless that exceeds the clock; it is the same if and only if clock mod rate < clock div rate. |
| RateLimiter.WaitTimeIs | src/dma_channel.cpp:431-454 | The waiting time is the largest whose multiple by the rate stays within the clock, 250 MHz on a generation 2 link and else 125 MHz; 0 stands for no limit. |
| RateLimiter.ReadRateIsStable | src/dma_channel.cpp:431-454 | Setting a rate that was read back keeps the waiting time. |
| FlashGeometry.BlocksTile | src/flash.cpp:480-512 | Every address lies in exactly one block, named by its number, and every block in one bank. |
| FlashGeometry.BlockIs | src/flash.cpp:480-512 | Blocks 130 to 4 are 128 KiB each from address 0 on, blocks 3 to 0 are 32 KiB each behind them, and banks of 1 MiB are numbered from the end. |
| FlashGeometry.BlockNumbersAreAll | src/flash.cpp:480-512 | Every block number from 0 to 130 is taken. |
| FlashGeometry.EraseEndIsShortestCover | src/flash.cpp:575-620 | For any file that fits the chip, the erased prefix is the shortest whole number of blocks covering it. |
| FlashGeometry.BufferFitsBlock | src/flash.cpp:692-729 | An aligned buffer of 32 words never crosses a block. |
| NorChip.ErasedTakesAnyWord | src/flash.cpp:687-711 | Programming an erased word stores any value. |
| NorChip.CommandsAre | include/librorc/flash.hh:44-83 | What each command number, and each pair of a setup and a confirmation, does to a chip at rest. |
| NorChip.ConfirmIs | include/librorc/flash.hh:62-74 | A filled buffer is programmed by its confirmation if its block is unlocked, and else nothing is. |
| NorChip.ProgramClearsBits | src/flash.cpp:273-280 | Programming clears the bits that are clear in the word, sets none, and reaches no other word. |
| NorChip.ReadyBit | include/librorc/flash.hh:97 | Bit 7 of the status says ready. |
| NorChip.WriteIsConfined | src/flash.cpp:72-80 | Whatever state the chip is in, a write below a block boundary leaves all words from there on alone, and opens no program buffer that could reach them. |
| Flash.ImageStep | src/flash.cpp:692-729 | Programming the next buffer over erased words extends the image of the file. |
| Flash.ImageHoldsFile | src/flash.cpp:689-705 | The image of a file holds byte 2i of the file in the low half of word i and byte 2i + 1 in the high half. |
| Flash.FileSync | src/flash.cpp:749-772 | The synchronisation word is seen at word w exactly when the file has the bytes 99 55 66 aa at offset 2w. |
| Flash.Flash.ResetBlock | src/flash.cpp:183-195 | Clears the status and puts the bank back to reading the array. |
| Flash.Flash.GetBlockLockConfiguration | src/flash.cpp:131-142 | Nonzero exactly for a locked block; only bank 0 returns to reading the array. |
| Flash.Flash.WaitReady | src/flash.cpp:254-271 | Times out exactly when the operation takes the full number of polls, and then returns the last status read. |
| Flash.Flash.UnlockBlock | src/flash.cpp:403-431 | Unlocks that block and no other, or returns the negated status of a timeout. |
| Flash.Flash.EraseBlock | src/flash.cpp:320-345 | Erases that block if it is unlocked; reports success for a locked one, and for a timeout with status zero. |
| Flash.Flash.Erase | src/flash.cpp:559-626 | On a prompt chip, erases exactly the blocks that cover the bytes and never meets an invalid address, or returns -1 for more bytes than the chip has; on any chip, changes nothing behind them. |
| Flash.Flash.OpenBuffer | src/flash.cpp:254-274 | The word count is accepted, except that of an empty buffer. |
| Flash.Flash.ProgramBuffer | src/flash.cpp:222-316 | Programs the words, in an unlocked block, and leaves its bank reading the array; an empty buffer fails with a sequence error. |
| Flash.Flash.FlashWrite | src/flash.cpp:630-739 | For a file of at most 16 MiB: on any chip, whatever its timing, nothing behind the erased blocks changes; on a prompt chip word i of the array holds bytes 2i and 2i + 1 of the file, low byte first, the array is all ones from there to the end of the last erased block and unchanged behind it, and the programmed banks read the array, up to the case of a single last byte. A longer file changes nothing. |
| Flash.Flash.ProgramFile | src/flash.cpp:686-729 | The programming loop over an erased area. |
| Flash.Flash.ProgramChunk | src/flash.cpp:705-725 | One buffer and its comparison. |
| Flash.Flash.FindFpgaSyncWord | src/flash.cpp:749-772 | On an idle chip in any mode, returns -1 exactly when no synchronisation word is seen in the range, else the offset of the second half of the first one. |
| NorChip.SeenIsArray | src/flash.cpp:171-180 | With all banks reading the array, what is seen is the array. |
| ByteOrder.ReorderSwapsHalves | fli/flisock.h:197-204 | Reversing eight bytes swaps the words and reverses each. |
| ByteOrder.SwapTwice | fli/flisock.h:197-204 | Reversing a word twice gives the word. |
| ByteOrder.SwapReverses | fli/flisock.h:197-204 | Byte i of a swapped word is byte 3 - i of the word. |
| ByteOrder.ReorderReverses | fli/flisock.h:197-204 | Byte i of a reordered 64-bit word is byte 7 - i. |
| LinkLayout.FirstWordIs | fli/flisock.h:94-110 | The first header word: bit 30 says that a payload follows, bit 29 that the address has 64 bits, the type is 10 for completions and else 0, and the low ten bits are the length. |
| LinkLayout.HeaderBeatIs | fli/flisock.c:632-805 | Where the address, the second completion header word and the payload word of a header beat lie, and which beats start and end a frame. |
| LinkLayout.DataBeatsAre | fli/flisock.c:518-629 | Payload word i lies, byte-reversed, in word i mod 4 of beat i div 4; the last beat ends the frame and counts the words it leaves empty. |
| LinkLayout.MessageIs | fli/flisock.h:53-88 | The message of each packet kind, word by word. |
| LinkLayout.CommandIs | src/bar_impl_sim.cpp:450-603 | What the host does for each command number and how many words it takes. |
| TrnMonitor.TrnMonitor.ReceiveData | fli/flisock.c:518-629 | A data beat adds the words that count, and sends, drops or continues the message. |
| TrnMonitor.TrnMonitor.ReceiveHeader | fli/flisock.c:632-805 | A header beat opens a message for the write formats and sends one for the others. |
| TrnMonitor.TrnMonitor.ClockEdge | fli/flisock.c:504-869 | One clock edge is one step of the state machine whose runs are studied. |
| Link.RunIsBeatsAndAcknowledges | fli/flisock.c:513-514 | Clocks without a transfer and acknowledges do not disturb reception. |
| Link.DataIsReceived | fli/flisock.c:518-629 | The beats of any payload reassemble to the payload, in host byte order. |
| Link.HeaderIsReceived | fli/flisock.c:632-805 | The header fields of every packet kind reach the message. |
| Link.PacketIsReceived | fli/flisock.c:504-805 | A packet becomes its message, except a 32-bit write of one word, which leaves the monitor waiting. |
| Link.ReadyIsLikeIdle | fli/flisock.c:606-636 | A waiting monitor receives the next packet like an idle one. |
| Link.AllDeliveredExactlyWhen | fli/flisock.c:661-691 | All packets are delivered if and only if none is a 32-bit write of one word. |
| Link.MonitorSendsPackets | fli/flisock.c:504-869 | Any packets, spread over the clocks in any way and mixed with acknowledges, become exactly the messages of the delivered packets, in order. |
| HostLink.HostLink.ReadDWs | src/bar_impl_sim.cpp:484-506 | Takes that many words off the stream. |
| HostLink.HostLink.DoWriteToHost | src/bar_impl_sim.cpp:527-545 | Takes address and payload of the announced size. |
| HostLink.HostLink.DoReadFromHost | src/bar_impl_sim.cpp:580-603 | Takes the request and its fields. |
| HostLink.HostLink.Dispatch | src/bar_impl_sim.cpp:450-477 | Acts on one message and skips unknown ones. |
| HostLink.HostLink.SockMonitor | src/bar_impl_sim.cpp:441-481 | The loop performs the parse of the whole stream. |
| SimulationLink.HostParsesMessages | src/bar_impl_sim.cpp:441-577 | Any sequence of messages is read back as their events, in order, without losing synchronisation. |
| SimulationLink.MessageMeansPacket | src/bar_impl_sim.cpp:580-603 | Printing a packet and parsing its message gives what the packet asks for, tag and byte enables included. |
| SimulationLink.HostPerformsPackets | src/bar_impl_sim.cpp:441-673 | End to end the host performs exactly what the delivered packets ask for, in order. |
| SimulationLink.AcknowledgesReachHost | fli/flisock.c:810-869 | From any state and over any clocks, the acknowledges among the host events are those the device gave, once each and in order. |
| Completions.ParamRoundTrip | fli/flisock.c:428-441 | Byte count, tag, status and lower address survive the parameter word. |
| Completions.SplitAnswers | src/bar_impl_sim.cpp:844-905 | Completions of at most the packet size carry the memory in order; each byte count is what is still to be sent, each lower address is that of its first byte. |
| Completions.SplitIsFull | src/bar_impl_sim.cpp:844-905 | The messages are numbered in a row and all but the last are filled to the packet size. |
| Completions.RequestIsAnswered | src/bar_impl_sim.cpp:812-905 | The request a read packet leads to is answered with exactly the words it asks for, in consecutively numbered messages of which all but the last are full. |
| Completions.CompletionHandler.Answer | src/bar_impl_sim.cpp:844-905 | The loop computes the split that SplitAnswers describes and numbers the messages consecutively. |
| HostMemory.FindIs | src/bar_impl_sim.cpp:776-797 | An address is found in exactly the buffer and at exactly the offset where its byte lies. |
| HostMemory.WithinSegmentIsContiguous | src/bar_impl_sim.cpp:543-568 | A transfer that ends within the segment it starts in is physically contiguous. |
| HostMemory.WriteIsPhysical | src/bar_impl_sim.cpp:543-568 | A write changes the words at its own physical addresses and nothing else. |
| HostMemory.WriteGoesToBuffer | src/bar_impl_sim.cpp:543-568 | Contiguous or not, the payload goes to consecutive words of the buffer and no other word changes. |
| HostMemory.WriteIsPhysicalExactlyWhen | src/bar_impl_sim.cpp:543-568 | On segments of whole words, a write acts like one to physical memory for every payload if and only if its target is physically contiguous. |
| HostMemory.ReadIsPhysical | src/bar_impl_sim.cpp:812-905 | A read is answered with the words at its physical addresses, for every packet size. |
| HostMemory.WritesArePhysical | src/bar_impl_sim.cpp:527-577 | A sequence of writes acts like writes to one physical memory, the last one winning. |
| HostMemory.DeviceWritesArePhysical | src/bar_impl_sim.cpp:441-577 | End to end, for any packets and any pauses, the buffers end up as one physical memory after the delivered writes. |
| HostMemory.HostMemory.GetOffset | src/bar_impl_sim.cpp:776-797 | The loop over the buffers computes the lookup that FindIs describes. |
| HostMemory.HostMemory.DoWriteToHost | src/bar_impl_sim.cpp:543-576 | Copies the payload to the place found; an unknown address writes nothing. |
| Replay.MaskBits | src/sysmon.cpp:893-902 | The mask of n words selects exactly the first n. |
| Replay.HeaderFields | src/sysmon.cpp:1004 | Mask, flags and channel select do not overlap in the header. |
| Replay.HeaderBits | src/sysmon.cpp:993-1004 | Of the low eight bits of a header exactly the one of the channel within its controller is set, six channels to a controller; bits 8 to 10 are end of event, end of replay and interface error. |
| Replay.EventIsDecoded | src/sysmon.cpp:879-917 | One event is read back whole, and what follows it starts afresh or is cut off by the end flag. |
| Replay.EventsAreDecoded | src/sysmon.cpp:879-917 | Any list of nonempty events is read back as it was written, whatever the unselected words hold. |
| Replay.ChannelsReplayTheirEvents | src/sysmon.cpp:879-1004 | Of interleaved writes for the channels of a controller, the blocks with the bit of a channel decode to exactly the events written for it, in order. |
| Replay.BlockCount | src/sysmon.cpp:879-917 | An event of n words takes ceil(n / 15) blocks. |
| ReplayBoard.AddressesDiffer | src/sysmon.cpp:1021 | Blocks within the reach of the address register do not share an address. |
| ReplayBoard.LoadStore | src/sysmon.cpp:1013-1023 | What was stored at consecutive addresses is what is loaded. |
| ReplayBoard.EventsAreConsecutive | src/sysmon.cpp:879-917 | Events written each at the address the previous call returned lie in consecutive blocks. |
| ReplayBoard.ReplayRoundTrip | src/sysmon.cpp:879-1023 | Such events are decoded from the board's memory to the same list. |
| ReplayBoard.InterleavedReplay | src/sysmon.cpp:879-1023 | Read from the board's memory, too, each channel replays exactly its own events. |
| ReplayBoard.OtherControllerKeeps | src/sysmon.cpp:1020-1023 | Writing to one controller leaves everything the other has. |
| ReplayBoard.BlockIsAt | src/sysmon.cpp:1020-1023 | Block i of a run is stored 8 * i address units behind its start. |
| ReplayBoard.AddressOfEvent | src/sysmon.cpp:879-917 | An event of n words advances the address by 8 * ceil(n / 15), and a start is rounded down to a multiple of four. |
| ReplayBoard.Board.BlockToRam | src/sysmon.cpp:978-1037 | Stores one block, with the header that HeaderBits describes, in the memory of controller channel / 6; refuses channels above 11, and times out after 10000 polls with the block stored. |
| ReplayBoard.Board.EventToRam | src/sysmon.cpp:879-917 | Stores the blocks of the event, which EventsAreDecoded and ChannelsReplayTheirEvents read back, and returns the address behind them, or stops at the block that timed out. |
| RefClock.CalcNewOpts | src/refclk.cpp:174-230 | Fails exactly outside [4850/1408, 945], [970, 1134] and [1212.5, 1417.5]; leaves the settings unset exactly for 945, 1134 and 1417.5; else returns a legal pair of minimal DCO frequency, the first such pair in the search order. |
| RefClock.FoundIs | src/refclk.cpp:190-215 | The settings found: a DCO frequency of 4850 to 5670, no higher than that of any other legal pair in this range and with the lowest N1 among equals; the multiplier in units of 2^-28, rounded down. |
| RefClock.RangeIsReached | src/refclk.cpp:190-206 | Some legal pair reaches the range exactly for the frequencies of those three intervals, and stays below its upper end unless the frequency is one of the three values. |
| RefClock.ClimbIntoRange | src/refclk.cpp:190-206 | From product 6 on, legal products lie close enough for every frequency to have one in the range. |
| RefClock.FirstExists | src/refclk.cpp:181-182 | Every reachable frequency has a first pair in the search order. |
| RefClock.FirstIs | src/refclk.cpp:181-182 | First means: no legal pair in the range has a lower N1, and none with the same N1 a higher HS_DIV. |
| RefClock.FirstIsReturnedExactlyWhen | src/refclk.cpp:181-182 | The returned pair is the first one in the search order if and only if the next lower product of legal dividers misses the range. |
| RefClock.FirstIsNotAlwaysReturned | src/refclk.cpp:181-182 | At 500 MHz the first pair is N1 = 1, HS_DIV = 11, and 2 * 5 is better. |
| RefClock.FrequencyError | src/refclk.cpp:50-66 | The settings stand for the requested frequency, and the rounded multiplier realises less than fxtal / (2^28 * HS_DIV * N1) below it. |
| RefClock.OutputIs | src/refclk.cpp:232-239 | The output frequency times both dividers is the crystal's frequency times the multiplier. |
| RefClock.RoundingError | src/refclk.cpp:50-66 | Rounding a multiplier down loses less than 2^-28. |
| Oscillator.SettingsRoundTrip | src/refclk.cpp:123-150 | Programming and reading back recovers the settings if and only if they fit the register fields. |
| Oscillator.PackedHoldsSettings | src/refclk.cpp:241-264 | HS_DIV less 4 in the upper three bits of register 13, N1 less 1 in the next seven, and the multiplier in the 38 bits up to register 18. |
| Oscillator.LastFoutIs | src/refclk.cpp:276-285 | A recorded value is the frequency times a million; 0 and the pattern of a register that does not answer stand for none. |
| Oscillator.RecordedFrequency | src/refclk.cpp:271-285 | The frequency read from the record is less than one Hz below the one recorded. |
| Oscillator.ReadBackAfterProgramming | src/refclk.cpp:123-172 | After programming, the settings are read back if and only if they fit, and the frequency used is less than one Hz below that of the settings. |
| Oscillator.CrystalIsRecovered | tools_src/rorctl/refclkgenctrl.cpp:190-199 | The crystal frequency computed from what was read back is the one the settings were searched with, up to a Hz times the dividers and 2^-28 of the multiplier. |
| Oscillator.RegistersRoundTrip | src/refclk.cpp:241-264 | Every register content is the image of the settings read from it. |
| Oscillator.SearchedSettingsFit | src/refclk.cpp:206-215 | The search's multiplier fits its 38 bits if and only if the DCO frequency is below 1024 times the crystal's. |
| Oscillator.Oscillator.SetFreezeDCO | src/refclk.cpp:323-329 | Sets the freeze bit and no other. |
| Oscillator.Oscillator.ReleaseDCO | src/refclk.cpp:301-312 | Clears the freeze bit and makes the output run on the settings. |
| Oscillator.Oscillator.WaitForClearance | src/refclk.cpp:331-345 | Returns once the flag is clear. |
| Oscillator.Oscillator.WriteOptsToDevice | src/refclk.cpp:241-275 | The settings are written to registers 13 to 18 only while the output is frozen; afterwards the output runs on them, no register but those, 135 and 137 has changed, and the frequency in Hz is recorded. |
| Oscillator.Oscillator.ReadSettings | src/refclk.cpp:129-150 | Gathers the settings from the registers. |
| Oscillator.Oscillator.GetCurrentOpts | src/refclk.cpp:123-172 | The settings in the registers, and the frequencies: the DCO frequency is the recorded one in Hz over a million, or else the given one, times both dividers, and the crystal's times the multiplier is the DCO frequency; with neither, the default crystal of 114.285. |

## Left out

- Sysfs, mmap, PDA, sockets, pipes, signals, shared memory, threads and the command-line tools: mapped memory, the scatter table and the message stream are given.
- Everything under `#ifdef PDA`, including the other branch of `bar_impl_sim::getOffset`: it rests on library calls that are not part of this model.
- The wait flags and mutexes of the register accesses in `bar_impl_sim`, and all host-to-device messages except completions.
- Malformed packets, and packets of 1024 words, whose length field is zero. The monitor's copy behind the end of its message buffer, which happens when the header after a lost one-word write is first taken for data, is assumed to do no harm.
- A read from a closed socket returns an unset variable; the model reads zero.
- Plain register getters and setters of the other classes, the microcontroller, QSFP, fan and LED code, and the benchmark programs: single accesses.
- Real time and floating-point rounding: polls are counted, frequencies are exact reals.
- The initial report buffer is taken as cleared, as `event_stream.cpp` does after configuring the channel and before enabling it; buffer allocation and its error codes are given.
- The channel status in shared memory except the receive and release offset, and the counters of `updateChannelStatus`.
- Descriptor fields that no modelled code reads, and the contents of the event buffer.
- The event buffer's own full condition in the device: only the report pointer holds the device back.
- The values that the scatter table's total and a window's offset take beyond the signed 64-bit range.
- Flash operations not used for writing a file: dump, lock, suspend, resume, blank check, identification, configuration register.
- Flash.Flash.FlashWrite: for a chip that is late, states what stays unchanged and, in UnlockBlock, EraseBlock and WaitReady, what is returned, but not the contents of the erased blocks. Files are read in full chunks.
- Flash.Flash.FindFpgaSyncWord: covers searches within one chip; behind it the source reads the next chip.
- HostMemory.HostMemory.DoWriteToHost: requires that the payload ends within the buffer, which the source does not check.
- HostMemory.DeviceWritesArePhysical: covers transfers within physically contiguous memory; for others HostMemory.WriteGoesToBuffer says where the words go.
- Completions.SplitAnswers: takes packet sizes that are positive multiples of four bytes; the source accepts any, and does not end for zero.
- ReplayBoard.ReplayRoundTrip: covers up to 2^28 blocks, the reach of the 31-bit address register.
- Oscillator.Oscillator.WriteOptsToDevice: takes frequencies whose value in Hz fits 32 bits; beyond that the C++ conversion is undefined. `refclk::reset` is left out.
- RefClock.FrequencyError: the factor between MHz and Hz and the single precision of `getFout` are not modelled.
