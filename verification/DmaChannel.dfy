/** The DMA channel's configuration calls, acting on the registers and descriptor memories of the device. */
module DmaChannel {
  import opened Words
  import opened Pages
  import opened ScatterGather
  import opened Windows
  import opened DescriptorRam
  import Bits
  import opened RingProtocol
  import Buffer
  import opened Remainders
  import RateLimiter

  const EFBIG := 27
  const ENODEV := 19

  // The control register: bit 31 hands over the read pointers, the link number sits above 16 low bits, of which bits 3,
  // 2 and 0 enable the two buffers and the engine.
  const SYNC_SWRDPTRS: uint32 := 0x8000_0000
  const ENABLES: uint32 := 0xd

  function ControlWord(linkNumber: nat, enables: uint32): uint32
    requires linkNumber < 0x8000 && enables < 0x1_0000
  {
    SYNC_SWRDPTRS + linkNumber * 0x1_0000 + enables
  }

  lemma ControlWordFields(linkNumber: nat, enables: uint32)
    requires linkNumber < 0x8000 && enables < 0x1_0000
    ensures var word := ControlWord(linkNumber, enables);
            && word / SYNC_SWRDPTRS == 1 && word / 0x1_0000 % 0x8000 == linkNumber && word % 0x1_0000 == enables
  {
    var word := ControlWord(linkNumber, enables);
    RemainderUnique(word, 0x8000 + linkNumber, enables, 0x1_0000);
    RemainderUnique(0x8000 + linkNumber, 1, linkNumber, 0x8000);
  }

  // While the channel runs, bits 0, 2 and 3 are set (the engine and its two buffers) and bit 31, which hands over the
  // pointers; bits 16 to 30 are the link number, and no other bit is set.
  lemma RunningControlBits(linkNumber: nat, i: nat)
    requires linkNumber < 0x8000 && i < 32
    ensures Bits.Bit(ControlWord(linkNumber, ENABLES), i) <==>
            || i == 0 || i == 2 || i == 3 || i == 31
            || (16 <= i < 31 && Bits.Bit(linkNumber, i - 16))
  {
    hide Bits.Bit, Bits.Pow2;
    Bits.Powers();
    Pow2Of15();
    Bits.BitOfFields(0x8000 + linkNumber, 16, 0xd, i);
    if i < 16 {
      BitsOf13(i);
    } else {
      Bits.BitOfFields(1, 15, linkNumber, i - 16);
      BitOfOne(i - 16);
    }
  }

  lemma Pow2Of15()
    ensures Bits.Pow2(15) == 0x8000
  {
    Bits.Powers();
    assert Bits.Pow2(16) == 2 * Bits.Pow2(15);
  }

  lemma BitsOf13(i: nat)
    ensures Bits.Bit(0xd, i) <==> i == 0 || i == 2 || i == 3
  {
    if i >= 4 {
      Bits.NoBits(i - 4);
      assert Bits.Bit(0xd, i) == Bits.Bit(6, i - 1) == Bits.Bit(3, i - 2) == Bits.Bit(1, i - 3) == Bits.Bit(0, i - 4);
    } else {
      assert Bits.Bit(3, 0) && Bits.Bit(6, 1) && Bits.Bit(1, 0) && Bits.Bit(3, 1);
    }
  }

  lemma BitOfOne(i: nat)
    ensures i >= 15 ==> (Bits.Bit(1, i - 15) <==> i == 15)
  {
    if i > 15 {
      Bits.NoBits(i - 16);
    }
  }

  // A descriptor in the outgoing FIFO, and whether it ends its event.
  datatype FifoEntry = FifoEntry(entry: Entry, endOfEvent: bool)

  // The configuration block of one buffer as the device sees it.
  datatype BufferConfig = BufferConfig(entries: nat, sizeLow: uint32, sizeHigh: uint32)

  // The descriptor memories of the device.
  datatype Memories = Memories(eventRam: seq<Entry>, reportRam: seq<Entry>, fifo: seq<FifoEntry>)

  function RamOf(m: Memories, target: Target): seq<Entry> {
    if target.ReportRam? then m.reportRam else m.eventRam
  }

  // No push may address a descriptor beyond the RAM.
  predicate PushFits(m: Memories, outgoing: bool, control: uint32) {
    && WritesRam(control)
    && ((outgoing && TargetOf(control).EventRam?) || LowBits(control) < |RamOf(m, TargetOf(control))|)
  }

  // What the device does when the control register is written with the write-enable bit set.
  function AfterPush(m: Memories, outgoing: bool, entry: Entry, control: uint32): Memories
    requires PushFits(m, outgoing, control)
  {
    if TargetOf(control).ReportRam? then m.(reportRam := m.reportRam[LowBits(control) := entry])
    else if outgoing then m.(fifo := m.fifo + [FifoEntry(entry, LowBits(control) % 2 == 1)])
    else m.(eventRam := m.eventRam[LowBits(control) := entry])
  }

  class DmaChannel {
    const page: PageSize
    // an outgoing channel has a FIFO in place of the event descriptor RAM
    const outgoing: bool
    const linkNumber: nat
    // how many descriptors the device says its FIFO takes, and what the host noted of it
    const fifoSize: nat
    var outFifoDepth: nat
    var control: uint32
    var memories: Memories
    var eventConfig: BufferConfig
    var reportConfig: BufferConfig
    var pointerRegisters: PointerRegisters
    var pointers: Pointers
    var packetWords: nat
    var waitTime: uint32
    // the offsets last written, as the host remembers them
    var lastOffsets: Pointers

    ghost predicate Valid()
      reads this
    {
      linkNumber < 0x8000
    }

    constructor (page: PageSize, outgoing: bool, linkNumber: nat, fifoSize: nat, eventRam: seq<Entry>,
                 reportRam: seq<Entry>)
      requires linkNumber < 0x8000
      ensures Valid() && this.page == page && this.outgoing == outgoing && this.linkNumber == linkNumber
      ensures memories == Memories(eventRam, reportRam, [])
    {
      this.page, this.outgoing, this.linkNumber, this.fifoSize := page, outgoing, linkNumber, fifoSize;
      outFifoDepth, control := 0, 0;
      memories := Memories(eventRam, reportRam, []);
      eventConfig, reportConfig := BufferConfig(0, 0, 0), BufferConfig(0, 0, 0);
      pointerRegisters, pointers := PointerRegisters(0, 0, 0, 0), Pointers(0, 0);
      packetWords, waitTime, lastOffsets := 0, 0, Pointers(0, 0);
    }

    method PushSglistEntryToRAM(address: uint64, length: uint64, control: uint32)
      requires PushFits(memories, outgoing, control)
      modifies `memories
      ensures memories == AfterPush(old(memories), outgoing, Encode(Segment(address, length)), control)
    {
      var entry := Entry(address % TWO_32, address / TWO_32, length % TWO_32);
      memories := AfterPush(memories, outgoing, entry, control);
    }

    method ReadSgListEntry(target: Target, index: nat) returns (address: uint64, length: uint32)
      requires index < |RamOf(memories, target)|
      ensures Segment(address, length) == Decode(RamOf(memories, target)[index])
    {
      var entry := RamOf(memories, target)[index];
      address := entry.high * TWO_32;
      address := address + entry.low;
      length := entry.length;
    }

    method PrepareSgList(list: seq<Segment>) returns (newlist: seq<Segment>)
      ensures newlist == ScatterGather.PrepareSgList(list, page)
    {
      hide ScatterGather.PrepareSgList, SplitSegment, Wrap;
      newlist := [];
      var i := 0;
      assert list[0..] == list;
      while i < |list|
        invariant 0 <= i <= |list|
        invariant newlist + ScatterGather.PrepareSgList(list[i..], page) == ScatterGather.PrepareSgList(list, page)
      {
        var current: uint64, remaining: uint64 := list[i].pointer, list[i].length;
        ghost var before, rest := newlist, ScatterGather.PrepareSgList(list[i + 1..], page);
        PrepareUnfold(list, i, page);
        while remaining / TWO_32 != 0
          invariant newlist + SplitSegment(Segment(current, remaining), page) == before + SplitSegment(list[i], page)
          decreases remaining
        {
          SplitUnfold(Segment(current, remaining), page);
          var cut := TWO_32 - page;
          ghost var pieces := SplitSegment(Segment(Wrap(current + cut), remaining - cut), page);
          assert newlist + ([Segment(current, cut)] + pieces) == (newlist + [Segment(current, cut)]) + pieces;
          newlist := newlist + [Segment(current, cut)];
          remaining := remaining - cut;
          current := Wrap(current + cut);
        }
        SplitUnfold(Segment(current, remaining), page);
        newlist := newlist + [Segment(current, remaining)];
        assert newlist + rest == before + (SplitSegment(list[i], page) + rest);
        i := i + 1;
      }
      PrepareUnfold(list, i, page);
      assert newlist + [] == newlist;
    }

    // Too long a list is refused and nothing is written; otherwise the RAM is programmed from index 0.
    method ConfigureBufferDescriptorRam(buf: Buffer.Buffer, target: Target) returns (status: int)
      requires buf.Valid() && |RamOf(memories, target)| <= SGCTRL_TARGET
      requires target.EventRam? ==> !outgoing
      modifies `memories, buf
      ensures buf.Valid() && buf.segments == buf.Segments()
      ensures var list := ScatterGather.PrepareSgList(buf.Segments(), page);
              var ram := old(RamOf(memories, target));
              if |list| >= |ram| then status == 27 && memories == old(memories)
              else
                && status == 0
                && RamOf(memories, target) == Programmed(ram, list)
                && memories == if target.ReportRam? then old(memories).(reportRam := Programmed(ram, list))
                               else old(memories).(eventRam := Programmed(ram, list))
    {
      var sgList := buf.SgList();
      var list := PrepareSgList(sgList);
      if |list| >= |RamOf(memories, target)| {
        return EFBIG;
      }
      ProgramRam(list, target);
      status := 0;
    }

    // Write a list that fits into a descriptor RAM, entry by entry, and a descriptor of length zero behind it.
    method ProgramRam(list: seq<Segment>, target: Target)
      requires |list| < |RamOf(memories, target)| <= SGCTRL_TARGET
      requires target.EventRam? ==> !outgoing
      modifies `memories
      ensures memories == if target.ReportRam?
                          then old(memories).(reportRam := Programmed(old(memories).reportRam, list))
                          else old(memories).(eventRam := Programmed(old(memories).eventRam, list))
    {
      hide PartlyProgrammed, Programmed, Encode, WriteControl, WritesRam, TargetOf, LowBits;
      ghost var ram := RamOf(memories, target);
      var index := 0;
      ProgramSteps(ram, list, index);
      while index < |list|
        invariant 0 <= index <= |list|
        invariant RamOf(memories, target) == PartlyProgrammed(ram, list, index)
        invariant memories == if target.ReportRam? then old(memories).(reportRam := RamOf(memories, target))
                              else old(memories).(eventRam := RamOf(memories, target))
      {
        ProgramSteps(ram, list, index);
        ControlRoundTrip(target, index);
        PushSglistEntryToRAM(list[index].pointer, list[index].length, WriteControl(target, index));
        index := index + 1;
      }
      ProgramSteps(ram, list, index);
      ControlRoundTrip(target, index);
      TerminatorIsZero();
      PushSglistEntryToRAM(0, 0, WriteControl(target, index));
    }

    // Announce an event to an outgoing channel: one FIFO entry per segment, the last one flagged. A channel towards the
    // host takes the flag for a RAM address and keeps the last two descriptors only.
    method AnnounceEvent(list: seq<Segment>)
      requires outgoing || 1 < |memories.eventRam|
      modifies `memories
      ensures outgoing ==> memories == old(memories).(fifo := old(memories).fifo + Announced(list))
      ensures !outgoing ==> memories == old(memories).(eventRam := Misplaced(old(memories).eventRam, list, |list|))
    {
      var i := 0;
      while i < |list|
        invariant 0 <= i <= |list|
        invariant outgoing ==> memories == old(memories).(fifo := old(memories).fifo + Announced(list)[..i])
        invariant !outgoing ==> memories == old(memories).(eventRam := Misplaced(old(memories).eventRam, list, i))
      {
        var last := i + 1 == |list|;
        ControlRoundTrip(EventRam, if last then 1 else 0);
        PushSglistEntryToRAM(list[i].pointer, list[i].length, WriteControl(EventRam, if last then 1 else 0));
        assert Announced(list)[..i + 1] == Announced(list)[..i] + [Announced(list)[i]];
        i := i + 1;
      }
      assert Announced(list)[..i] == Announced(list);
    }

    // Write both read pointers and let the device take them over together.
    method SetBufferOffsetsOnDevice(eventOffset: uint64, reportOffset: uint64)
      requires Valid()
      modifies `pointerRegisters, `pointers, `lastOffsets, `control
      ensures control == 0x8000_0000 + linkNumber * 0x1_0000 + 0xd == ControlWord(linkNumber, ENABLES)
      ensures pointers == lastOffsets == Pointers(eventOffset, reportOffset)
      ensures pointerRegisters == StorePointers(pointers)
      ensures pointerRegisters.eventLow + 0x1_0000_0000 * pointerRegisters.eventHigh == eventOffset
      ensures pointerRegisters.reportLow + 0x1_0000_0000 * pointerRegisters.reportHigh == reportOffset
    {
      pointerRegisters := PointerRegisters(eventOffset % TWO_32, eventOffset / TWO_32 % TWO_32,
                                           reportOffset % TWO_32, reportOffset / TWO_32 % TWO_32);
      control := 0x8000_0000 + linkNumber * 0x1_0000 + 8 + 4 + 1;
      pointers := SyncPointers(pointerRegisters);
      lastOffsets := Pointers(eventOffset, reportOffset);
    }

    method SetRateLimit(rate: uint32, pcieGen: uint32)
      modifies `waitTime
      ensures waitTime == RateLimiter.WaitTime(rate, pcieGen)
      ensures rate != 0 ==>
                waitTime * rate <= (if pcieGen == 2 then 250000000 else 125000000) < (waitTime + 1) * rate
    {
      var frequency := if pcieGen == 2 then 250000000 else 125000000;
      waitTime := 0;
      if rate != 0 {
        RateLimiter.QuotientBounds(frequency, rate);
        waitTime := frequency / rate;
      }
    }

    method RateLimit(pcieGen: uint32) returns (rate: uint32)
      ensures rate == RateLimiter.Rate(waitTime, pcieGen)
    {
      var frequency := if pcieGen == 2 then 250000000 else 125000000;
      rate := 0;
      if waitTime != 0 {
        RateLimiter.QuotientBounds(frequency, waitTime);
        rate := frequency / waitTime;
      }
    }

    // Buffer sizes, entry counts of the coalesced lists, and read pointers one packet and one descriptor before the
    // end.
    method ConfigureDmaChannelRegisters(eventBuffer: Buffer.Buffer, reportBuffer: Buffer.Buffer, packetSize: uint32)
      requires Valid() && eventBuffer.Valid() && reportBuffer.Valid()
      modifies this, eventBuffer, reportBuffer
      ensures control == 0x8000_0000 + linkNumber * 0x1_0000 && outFifoDepth == old(outFifoDepth)
      ensures eventBuffer.Valid() && reportBuffer.Valid() && memories == old(memories) && waitTime == old(waitTime)
      ensures eventConfig == ConfigOf(|eventBuffer.Segments()|, eventBuffer.size)
      ensures reportConfig == ConfigOf(|reportBuffer.Segments()|, reportBuffer.size)
      ensures pointers == lastOffsets == ConfiguredPointers(eventBuffer.size, reportBuffer.size, packetSize)
      ensures packetWords == (packetSize / 4) % 0x400
    {
      hide Coalesce, Total, Low32, High32, Join64;
      var eventList := eventBuffer.SgList();
      var reportList := reportBuffer.SgList();
      eventConfig := BufferConfig(|eventList|, Low32(eventBuffer.size), High32(eventBuffer.size));
      reportConfig := BufferConfig(|reportList|, Low32(reportBuffer.size), High32(reportBuffer.size));
      var eventOffset := (eventBuffer.size - packetSize) % TWO_64;
      var reportOffset := (reportBuffer.size - DESCRIPTOR_BYTES) % TWO_64;
      HalvesMakeWord(eventOffset);
      HalvesMakeWord(reportOffset);
      pointerRegisters := PointerRegisters(Low32(eventOffset), High32(eventOffset),
                                           Low32(reportOffset), High32(reportOffset));
      control := 0x8000_0000 + linkNumber * 0x1_0000;
      pointers := SyncPointers(pointerRegisters);
      lastOffsets := Pointers(eventOffset, reportOffset);
      packetWords := (packetSize / 4) % 0x400;
    }

    // Configure the channel: towards the host both descriptor RAMs, else only that of the report buffer, then the
    // registers. Without buffers nothing is done; a list that does not fit leaves the registers alone.
    method Configure(eventBuffer: Buffer.Buffer?, reportBuffer: Buffer.Buffer?, packetSize: uint32)
      returns (status: int)
      requires Valid()
      requires (eventBuffer != null ==> eventBuffer.Valid()) && (reportBuffer != null ==> reportBuffer.Valid())
      requires |memories.eventRam| <= SGCTRL_TARGET && |memories.reportRam| <= SGCTRL_TARGET
      modifies this, eventBuffer, reportBuffer
      ensures eventBuffer == null || reportBuffer == null ==> status == 19 && unchanged(this)
      ensures eventBuffer != null && reportBuffer != null ==>
                eventBuffer.Valid() && reportBuffer.Valid() &&
                var eventList := ScatterGather.PrepareSgList(eventBuffer.Segments(), page);
                var reportList := ScatterGather.PrepareSgList(reportBuffer.Segments(), page);
                var eventFits := outgoing || |eventList| < |old(memories.eventRam)|;
                var reportFits := |reportList| < |old(memories.reportRam)|;
                && status == (if eventFits && reportFits then 0 else 27)
                && outFifoDepth == (if outgoing then fifoSize else old(outFifoDepth))
                && (status != 0 ==>
                      pointers == old(pointers) && eventConfig == old(eventConfig) && control == old(control))
                && (status == 0 ==>
                      && memories == Memories(
                           if outgoing then old(memories.eventRam) else Programmed(old(memories.eventRam), eventList),
                           Programmed(old(memories.reportRam), reportList), old(memories.fifo))
                      && eventConfig == ConfigOf(|eventBuffer.Segments()|, eventBuffer.size)
                      && reportConfig == ConfigOf(|reportBuffer.Segments()|, reportBuffer.size)
                      && control == 0x8000_0000 + linkNumber * 0x1_0000
                      && pointers == ConfiguredPointers(eventBuffer.size, reportBuffer.size, packetSize))
    {
      hide ScatterGather.PrepareSgList, Programmed, ConfiguredPointers;
      if eventBuffer == null || reportBuffer == null {
        return ENODEV;
      }
      if !outgoing {
        status := ConfigureBufferDescriptorRam(eventBuffer, EventRam);
        if status != 0 {
          return;
        }
      } else {
        outFifoDepth := fifoSize;
      }
      status := ConfigureBufferDescriptorRam(reportBuffer, ReportRam);
      if status != 0 {
        return;
      }
      ConfigureDmaChannelRegisters(eventBuffer, reportBuffer, packetSize);
    }
  }

  function ConfigOf(entries: nat, size: uint64): BufferConfig {
    BufferConfig(entries, Low32(size), High32(size))
  }

  lemma ConfigHoldsSize(entries: nat, size: uint64)
    ensures var c := ConfigOf(entries, size); c.sizeLow + 0x1_0000_0000 * c.sizeHigh == size && c.entries == entries
  {
  }

  function Announced(list: seq<Segment>): (r: seq<FifoEntry>)
    ensures |r| == |list|
  {
    seq(|list|, i requires 0 <= i < |list| => FifoEntry(Encode(list[i]), i + 1 == |list|))
  }

  // The event RAM after the first n descriptors of a list went to address 0, or to 1 if they are its last.
  function Misplaced(ram: seq<Entry>, list: seq<Segment>, n: nat): (r: seq<Entry>)
    requires n <= |list| && 1 < |ram|
    ensures |r| == |ram|
  {
    if n == 0 then ram
    else Misplaced(ram, list, n - 1)[(if n == |list| then 1 else 0) := Encode(list[n - 1])]
  }

  // What is left of the announced list then: the last descriptor at address 1 and the one before it at 0.
  lemma {:induction false} MisplacedKeepsTwo(ram: seq<Entry>, list: seq<Segment>, n: nat)
    requires n <= |list| && 1 < |ram|
    ensures var after := Misplaced(ram, list, n);
            && after[2..] == ram[2..]
            && after[1] == (if n > 0 && n == |list| then Encode(list[n - 1]) else ram[1])
            && var shown := if n == |list| then n - 1 else n;
               after[0] == if shown > 0 then Encode(list[shown - 1]) else ram[0]
  {
    hide Encode;
    if n > 0 {
      MisplacedKeepsTwo(ram, list, n - 1);
    }
  }

  function DecodeFifo(fifo: seq<FifoEntry>): seq<Segment> {
    seq(|fifo|, i requires 0 <= i < |fifo| => Decode(fifo[i].entry))
  }

  // An event composed from a page-backed buffer reaches the device whole: no length is cut off, the descriptors denote
  // exactly the circular window, each respects pages, and exactly the last one ends the event.
  lemma AnnouncedWindow(list: seq<Segment>, size: nat, offset: nat, length: nat, page: PageSize)
    requires PageBacked(list, size, page) && offset < size
    ensures |Bytes(list)| == size
    ensures var (ok, entries) := Compose(list, size, offset, length, page);
            var fifo := Announced(entries);
            && ok
            && DecodeFifo(fifo) == entries
            && Bytes(DecodeFifo(fifo)) == Window(Bytes(list), offset, length)
            && RespectsPages(DecodeFifo(fifo), page)
            && forall i :: 0 <= i < |fifo| ==> fifo[i].endOfEvent == (i == |fifo| - 1)
  {
    PageBackedEndsAtPage(list, size, page);
    ComposeIsWindow(list, size, offset, length, page);
    ComposeRespectsPages(list, size, offset, length, page);
    var entries := Compose(list, size, offset, length, page).1;
    forall i | 0 <= i < |entries|
      ensures Decode(Encode(entries[i])) == entries[i]
    {
      assert entries[i] in entries;
      EntryRoundTrip(entries[i]);
    }
  }

  // One packet before the end of the event buffer, one descriptor before the end of the report buffer.
  function ConfiguredPointers(eventSize: uint64, reportSize: uint64, packetSize: uint32): Pointers {
    Pointers((eventSize - packetSize) % TWO_64, (reportSize - DESCRIPTOR_BYTES) % TWO_64)
  }

  // In bytes, where a size below that wraps around.
  lemma ConfiguredPointersAre(eventSize: uint64, reportSize: uint64, packetSize: uint32)
    ensures var p := ConfiguredPointers(eventSize, reportSize, packetSize);
            && p.event + packetSize == eventSize + (if packetSize <= eventSize then 0 else 0x1_0000_0000_0000_0000)
            && p.report + 32 == reportSize + (if 32 <= reportSize then 0 else 0x1_0000_0000_0000_0000)
  {
    WrappedDifference(eventSize, packetSize);
    WrappedDifference(reportSize, 32);
  }

  lemma WrappedDifference(a: uint64, b: uint64)
    ensures (a - b) % TWO_64 + b == a + (if b <= a then 0 else TWO_64)
  {
    var q := (a - b) / TWO_64;
    assert a - b == q * TWO_64 + (a - b) % TWO_64;
  }

  // These are the pointers from which the report ring protocol starts: the report pointer names the last slot.
  lemma ConfiguredPointersStartTheRing(entries: nat, eventSize: uint64, packetSize: uint32)
    requires 0 < entries && entries * DESCRIPTOR_BYTES < TWO_64
    ensures var p := ConfiguredPointers(eventSize, entries * DESCRIPTOR_BYTES, packetSize);
            Initial(entries, p.event).published == p && p.report == 32 * (entries - 1)
  {
  }
}
