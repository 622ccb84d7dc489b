/**
 The receive and release calls of one event stream, on the report buffer and release map they update in place and the
 DMA channel that publishes the read pointers.
 */
module EventStream {
  import opened Words
  import opened Remainders
  import opened Slots
  import opened RingProtocol
  import opened RingInvariant
  import opened RingSpec
  import DmaChannel

  function Zeroed(slots: seq<Descriptor>, start: nat, count: nat): seq<Descriptor>
    requires start + count <= |slots|
  {
    seq(|slots|, i requires 0 <= i < |slots| => if start <= i < start + count then CLEARED else slots[i])
  }

  // The position of descriptor `index`, reduced by the size of the buffer.
  function ReportOffset(index: nat, bufferSize: nat): nat
    requires 0 < bufferSize
  {
    (index * DESCRIPTOR_BYTES) % bufferSize
  }

  lemma ReportOffsetInBounds(index: nat, entries: nat)
    requires index < entries
    ensures ReportOffset(index, entries * DESCRIPTOR_BYTES) == index * DESCRIPTOR_BYTES
  {
    RemainderUnique(index * DESCRIPTOR_BYTES, 0, index * DESCRIPTOR_BYTES, entries * DESCRIPTOR_BYTES);
  }

  // The loop of updateBufferOffsets after `done` retirements from ring r, of which the last `count` (from slot `start`)
  // still await their memset.
  ghost predicate Retiring(r: Ring, slots: seq<Descriptor>, marks: seq<bool>, index: nat, start: nat, count: nat,
                           done: nat, last: Pointers)
    requires Sized(r)
  {
    var n, base := |r.slots|, r.releaseIndex;
    && |slots| == |marks| == n
    && done <= n && index < n && index == Walk(base, done, n)
    && start + count == index && count <= done
    && start == (if base + done < n then base else 0)
    && RunLength(r.pending, base, n) == done + RunLength(r.pending, index, n - done)
    && (forall i :: 0 <= i < n ==> marks[i] == (Distance(i, base, n) >= done && r.pending[i]))
    && (forall i :: 0 <= i < n ==>
          slots[i] == if Distance(i, base, n) < done - count then CLEARED else r.slots[i])
    && if done == 0 then marks[index]
       else
         var previous := Walk(base, done - 1, n);
         last == Pointers(r.slots[previous].offset, previous * DESCRIPTOR_BYTES)
  }

  lemma RetiringStart(r: Ring, last: Pointers)
    requires Sized(r) && r.pending[r.releaseIndex]
    ensures Retiring(r, r.slots, r.pending, r.releaseIndex, r.releaseIndex, 0, 0, last)
  {
  }

  lemma RetiringStep(r: Ring, slots: seq<Descriptor>, marks: seq<bool>, index: nat, start: nat, count: nat,
                     done: nat, last: Pointers)
    requires Sized(r) && Retiring(r, slots, marks, index, start, count, done, last) && marks[index]
    ensures var n := |r.slots|;
            var next := Next(index, n);
            var read := Pointers(slots[index].offset, index * DESCRIPTOR_BYTES);
            && start + count + 1 <= n
            && if next == 0 then
                 Retiring(r, Zeroed(slots, start, count + 1), marks[index := false], 0, 0, 0, done + 1, read)
               else Retiring(r, slots, marks[index := false], next, start, count + 1, done + 1, read)
  {
  }

  lemma RetiringEnd(r: Ring, slots: seq<Descriptor>, marks: seq<bool>, index: nat, start: nat, count: nat,
                    done: nat, last: Pointers)
    requires Sized(r) && Retiring(r, slots, marks, index, start, count, done, last) && !marks[index]
    ensures start + count <= |slots|
    ensures Retire(r) == Ring(Zeroed(slots, start, count), marks, r.receiveIndex, index, last)
  {
  }

  // The slot before an index, going around.
  function Previous(index: nat, n: nat): (p: nat)
    requires index < n
    ensures p < n && Next(p, n) == index
  {
    if index == 0 then n - 1 else index - 1
  }

  lemma NothingRetired(r: Ring)
    requires Sized(r) && !r.pending[r.releaseIndex]
    ensures Retire(r) == r
  {
  }

  lemma RetiredLast(r: Ring, slots: seq<Descriptor>, marks: seq<bool>, index: nat, start: nat, count: nat,
                    done: nat, last: Pointers)
    requires Sized(r) && Retiring(r, slots, marks, index, start, count, done, last) && !marks[index]
    requires r.pending[r.releaseIndex]
    ensures index < |r.slots|
    ensures last == Pointers(r.slots[Previous(index, |r.slots|)].offset, 32 * Previous(index, |r.slots|))
  {
  }

  class EventStream {
    const maxEntries: nat
    const reports: array<Descriptor>
    const releaseMap: array<bool>
    var receiveIndex: uint64
    var releaseIndex: nat
    const channel: DmaChannel.DmaChannel
    // the offsets shown in the channel status
    var receiveOffset: uint64
    var releaseOffset: uint64

    ghost predicate Valid()
      reads this, channel
    {
      && channel.Valid()
      && 0 < maxEntries == reports.Length == releaseMap.Length
      && maxEntries * DESCRIPTOR_BYTES < TWO_64
      && releaseIndex < maxEntries
      && (receiveIndex == EVENT_INDEX_UNDEFINED || receiveIndex < maxEntries)
    }

    ghost function Contents(): (r: Ring)
      reads this, reports, releaseMap, channel
      requires Valid()
      ensures Sized(r)
    {
      Ring(reports[..], releaseMap[..], receiveIndex, releaseIndex, channel.pointers)
    }

    // initializeDmaBuffers, for a report buffer of `entries` descriptors, on a channel that was configured for it.
    constructor (entries: nat, eventBufferSize: uint64, packetSize: uint32, channel: DmaChannel.DmaChannel)
      requires 0 < entries && entries * DESCRIPTOR_BYTES < TWO_64
      requires packetSize <= eventBufferSize
      requires channel.Valid()
      requires channel.pointers
            == DmaChannel.ConfiguredPointers(eventBufferSize, entries * DESCRIPTOR_BYTES, packetSize)
      ensures Valid() && fresh(reports) && fresh(releaseMap) && this.channel == channel
      ensures Contents() == MemoryOf(Initial(entries, eventBufferSize - packetSize))
      ensures channel.pointers == Pointers(eventBufferSize - packetSize, 32 * (entries - 1))
    {
      maxEntries := entries;
      reports := new Descriptor[entries](_ => CLEARED);
      releaseMap := new bool[entries](_ => false);
      receiveIndex := EVENT_INDEX_UNDEFINED;
      releaseIndex := 0;
      this.channel := channel;
      receiveOffset, releaseOffset := 0, 0;
    }

    method GetNextEvent() returns (found: bool, report: Descriptor, event: nat, reference: uint64)
      requires Valid()
      modifies `receiveIndex, `receiveOffset
      ensures Valid()
      ensures (Contents(), found, reference, report) == Receive(old(Contents()))
      ensures found ==> event == report.offset / 4 && receiveOffset == report.offset
      ensures !found ==> receiveOffset == old(receiveOffset)
    {
      var index := 0;
      if receiveIndex != EVENT_INDEX_UNDEFINED {
        index := if receiveIndex < maxEntries - 1 then receiveIndex + 1 else 0;
      }
      if reports[index].reportedSize == 0 {
        return false, CLEARED, 0, 0;
      }
      receiveIndex := index;
      reference := index;
      report := reports[index];
      event := report.offset / 4;
      receiveOffset := reports[index].offset;
      found := true;
    }

    // memset over the descriptors [start, start + count).
    method Clear(start: nat, count: nat)
      requires start + count <= reports.Length
      modifies reports
      ensures reports[..] == Zeroed(old(reports[..]), start, count)
    {
      for j := start to start + count
        invariant forall i :: 0 <= i < reports.Length ==>
                    reports[i] == if start <= i < j then CLEARED else old(reports[i])
      {
        reports[j] := CLEARED;
      }
    }

    // Take the entry at the release index off the release map, note its offsets, and step on.
    method RetireOldest() returns (offsets: Pointers)
      requires Valid()
      modifies this`releaseIndex, releaseMap
      ensures Valid() && reports[..] == old(reports[..])
      ensures releaseMap[..] == old(releaseMap[..])[old(releaseIndex) := false]
      ensures releaseIndex == Next(old(releaseIndex), maxEntries)
      ensures offsets == old(Pointers(reports[releaseIndex].offset, releaseIndex * DESCRIPTOR_BYTES))
    {
      ReportOffsetInBounds(releaseIndex, maxEntries);
      releaseMap[releaseIndex] := false;
      offsets := Pointers(reports[releaseIndex].offset, ReportOffset(releaseIndex, maxEntries * DESCRIPTOR_BYTES));
      releaseIndex := if releaseIndex < maxEntries - 1 then releaseIndex + 1 else 0;
    }

    // The loop of updateBufferOffsets: everything up to the memset of the slots retired since the last wrap-around.
    method RetireReleased() returns (start: nat, count: nat, offsets: Pointers, ghost done: nat)
      requires Valid() && releaseMap[releaseIndex]
      modifies this`releaseIndex, reports, releaseMap
      ensures Valid() && !releaseMap[releaseIndex]
      ensures Retiring(old(Contents()), reports[..], releaseMap[..], releaseIndex, start, count, done, offsets)
    {
      hide Retiring, Zeroed, CountTrue;
      offsets := Pointers(0, 0);
      start, count, done := releaseIndex, 0, 0;
      ghost var r := Contents();
      RetiringStart(r, offsets);
      while releaseMap[releaseIndex]
        invariant Valid()
        invariant Retiring(r, reports[..], releaseMap[..], releaseIndex, start, count, done, offsets)
        decreases CountTrue(releaseMap[..])
      {
        RetiringStep(r, reports[..], releaseMap[..], releaseIndex, start, count, done, offsets);
        CountUpdate(releaseMap[..], releaseIndex, false);
        offsets := RetireOldest();
        count := count + 1;
        done := done + 1;
        if releaseIndex == 0 {
          Clear(start, count);
          start, count := 0, 0;
        }
      }
    }

    // Both pointers describe the slot retired last, the report pointer as a byte position.
    method UpdateBufferOffsets()
      requires Valid()
      modifies this`releaseIndex, this`releaseOffset, reports, releaseMap
      modifies channel`pointerRegisters, channel`pointers, channel`lastOffsets, channel`control
      ensures Valid()
      ensures Contents() == Retire(old(Contents()))
      ensures releaseOffset == if old(releaseMap[releaseIndex]) then channel.pointers.event else old(releaseOffset)
      ensures old(releaseMap[releaseIndex]) ==>
                && channel.pointers.report == 32 * Previous(releaseIndex, maxEntries)
                && channel.pointers.event == old(reports[..])[Previous(releaseIndex, maxEntries)].offset
                && channel.pointers == channel.lastOffsets == SyncPointers(channel.pointerRegisters)
    {
      hide Retiring, Retire, Zeroed, Previous;
      if !releaseMap[releaseIndex] {
        NothingRetired(Contents());
        return;
      }
      ghost var r := Contents();
      var start, count, offsets, done := RetireReleased();
      RetiringEnd(r, reports[..], releaseMap[..], releaseIndex, start, count, done, offsets);
      RetiredLast(r, reports[..], releaseMap[..], releaseIndex, start, count, done, offsets);
      Clear(start, count);
      channel.SetBufferOffsetsOnDevice(offsets.event, offsets.report);
      releaseOffset := offsets.event;
    }

    method ReleaseEvent(reference: uint64) returns (status: int)
      requires Valid()
      modifies this`releaseIndex, this`releaseOffset, reports, releaseMap
      modifies channel`pointerRegisters, channel`pointers, channel`lastOffsets, channel`control
      ensures Valid()
      ensures status == if reference < maxEntries then 0 else -1
      ensures Contents() == Release(old(Contents()), reference)
      ensures if reference < maxEntries && (reference == old(releaseIndex) || old(releaseMap[releaseIndex])) then
                channel.pointers.report == 32 * Previous(releaseIndex, maxEntries)
              else
                channel.pointers == old(channel.pointers)
    {
      if reference >= maxEntries {
        return -1;
      }
      releaseMap[reference] := true;
      UpdateBufferOffsets();
      status := 0;
    }

    method GetNumberOfPendingReleases() returns (count: nat)
      requires Valid()
      ensures count == CountTrue(Contents().pending)
    {
      count := 0;
      for i := 0 to maxEntries
        invariant count == CountTrue(releaseMap[..i])
      {
        assert releaseMap[..i + 1][..i] == releaseMap[..i];
        if releaseMap[i] {
          count := count + 1;
        }
      }
      assert releaseMap[..maxEntries] == releaseMap[..];
    }

    method GetRingbufferFillCount() returns (count: int)
      requires Valid()
      ensures count == FillCount(Contents())
    {
      if receiveIndex == EVENT_INDEX_UNDEFINED {
        return 0;
      } else if receiveIndex >= releaseIndex {
        return receiveIndex - releaseIndex;
      } else {
        return maxEntries - (releaseIndex - receiveIndex);
      }
    }
  }
}
