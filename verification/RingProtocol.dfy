/**
 The report ring as three parties see it: the device appends descriptors, a receiver takes them in order under one
 mutex, and releasers hand them back in any order under another mutex. The two mutexes do not exclude each other and
 neither excludes the device, so every access to shared memory is a step of its own here.
 */
module RingProtocol {
  import opened Words
  import opened Slots

  // A 64-bit offset, two 32-bit sizes and two unused 64-bit words.
  const DESCRIPTOR_BYTES: nat := 8 + 4 + 4 + 8 + 8
  const EVENT_INDEX_UNDEFINED: uint64 := 0xffff_ffff_ffff_ffff

  datatype Descriptor = Descriptor(offset: uint64, reportedSize: uint32, calcSize: uint32)

  const CLEARED := Descriptor(0, 0, 0)

  // The two software read pointers the device works with, in bytes into the event and the report buffer.
  datatype Pointers = Pointers(event: uint64, report: uint64)

  // The four registers the pointers are written to; the device takes them over when the sync bit is written.
  datatype PointerRegisters = PointerRegisters(
    eventLow: uint32, eventHigh: uint32, reportLow: uint32, reportHigh: uint32)

  function StorePointers(p: Pointers): PointerRegisters {
    PointerRegisters(Low32(p.event), High32(p.event), Low32(p.report), High32(p.report))
  }

  function SyncPointers(r: PointerRegisters): Pointers {
    Pointers(Join64(r.eventHigh, r.eventLow), Join64(r.reportHigh, r.reportLow))
  }

  // Where the holder of the receive mutex is inside getNextEvent.
  datatype GetPhase =
    | GetIdle
    | GetLooking(index: nat)
    | GetFound(index: nat)

  // Where the holder of the release mutex is inside releaseEvent.
  datatype ReleasePhase =
    | ReleaseIdle
    | Marked
    | Draining(start: nat, count: nat, last: Pointers)
    | Clearing(next: nat, left: nat, wrapped: bool, last: Pointers)
    | Storing(last: Pointers)
    | Syncing(last: Pointers)

  /** Memory shared by the parties, the two program counters, and what has happened so far. */
  datatype State = State(
    n: nat,
    slots: seq<Descriptor>,
    pending: seq<bool>,
    receiveIndex: uint64,
    releaseIndex: nat,
    registers: PointerRegisters,
    published: Pointers,
    getter: GetPhase,
    releaser: ReleasePhase,
    initial: Pointers,
    // history: descriptors written by the device, number of events received, events handed back, and how many
    // events have left the release map, have been zeroed, and are covered by the pointers the device holds
    written: seq<Descriptor>,
    received: nat,
    released: set<nat>,
    retired: nat,
    cleared: nat,
    acknowledged: nat
  )

  datatype Action =
    | DeviceWrite(descriptor: Descriptor)
    | GetStart
    | GetPeek
    | GetTake
    | ReleaseMark(event: nat)
    | ReleaseStep

  ghost predicate Shaped(s: State) {
    && 0 < s.n
    && s.n * DESCRIPTOR_BYTES < TWO_64
    && |s.slots| == s.n
    && |s.pending| == s.n
    && s.releaseIndex < s.n
    && (s.receiveIndex == EVENT_INDEX_UNDEFINED || s.receiveIndex < s.n)
    && (s.getter.GetLooking? ==> s.getter.index < s.n)
    && (s.getter.GetFound? ==> s.getter.index < s.n)
    && (s.releaser.Draining? ==> s.releaser.start + s.releaser.count == s.releaseIndex)
    && (s.releaser.Clearing? ==>
          if s.releaser.wrapped then s.releaseIndex == 0 && s.releaser.next + s.releaser.left == s.n
          else s.releaser.next + s.releaser.left == s.releaseIndex)
  }

  // After initializeDma: cleared buffer, empty release map, report pointer on the last slot.
  function Initial(n: nat, eventPointer: uint64): State
    requires 0 < n && n * DESCRIPTOR_BYTES < TWO_64
  {
    var start := Pointers(eventPointer, n * DESCRIPTOR_BYTES - DESCRIPTOR_BYTES);
    State(n, seq(n, i => CLEARED), seq(n, i => false), EVENT_INDEX_UNDEFINED, 0,
          StorePointers(start), start, GetIdle, ReleaseIdle, start, [], 0, {}, 0, 0, 0)
  }

  // The slot after index, as both loops of the source step through the ring.
  function Next(index: nat, n: nat): nat
    requires 0 < n
  {
    if index < n - 1 then index + 1 else 0
  }

  function NextToReceive(receiveIndex: uint64, n: nat): nat
    requires 0 < n
  {
    if receiveIndex == EVENT_INDEX_UNDEFINED then 0 else Next(receiveIndex, n)
  }

  // The device holds back while its next slot is the one its report pointer names. Events are released by reference,
  // and only events that were received and not released before.
  predicate Enabled(s: State, a: Action)
    requires 0 < s.n
  {
    match a
    case DeviceWrite(d) =>
      d.reportedSize != 0 && Slot(|s.written|, s.n) * DESCRIPTOR_BYTES != s.published.report
    case GetStart => s.getter.GetIdle?
    case GetPeek => s.getter.GetLooking?
    case GetTake => s.getter.GetFound?
    case ReleaseMark(k) => s.releaser.ReleaseIdle? && k < s.received && k !in s.released
    case ReleaseStep => !s.releaser.ReleaseIdle?
  }

  // One step of updateBufferOffsets: the test, one round of the loop, one descriptor of a memset, the register
  // writes, or the sync bit.
  function StepRelease(s: State): (t: State)
    requires Shaped(s) && !s.releaser.ReleaseIdle?
    ensures Shaped(t)
  {
    match s.releaser
    case Marked =>
      if !s.pending[s.releaseIndex] then s.(releaser := ReleaseIdle)
      else s.(releaser := Draining(s.releaseIndex, 0, Pointers(0, 0)))
    case Draining(start, count, last) =>
      if s.pending[s.releaseIndex] then
        var index := Next(s.releaseIndex, s.n);
        var read := Pointers(s.slots[s.releaseIndex].offset, s.releaseIndex * DESCRIPTOR_BYTES);
        s.(pending := s.pending[s.releaseIndex := false],
           releaseIndex := index,
           retired := s.retired + 1,
           releaser := if index == 0 then Clearing(start, count + 1, true, read)
                       else Draining(start, count + 1, read))
      else s.(releaser := Clearing(start, count, false, last))
    case Clearing(next, left, wrapped, last) =>
      if left > 0 then
        s.(slots := s.slots[next := CLEARED],
           cleared := s.cleared + 1,
           releaser := Clearing(next + 1, left - 1, wrapped, last))
      else if wrapped then s.(releaser := Draining(0, 0, last))
      else s.(releaser := Storing(last))
    case Storing(last) =>
      s.(registers := StorePointers(last), releaser := Syncing(last))
    case Syncing(_) =>
      s.(published := SyncPointers(s.registers), acknowledged := s.retired, releaser := ReleaseIdle)
  }

  function Apply(s: State, a: Action): (t: State)
    requires Shaped(s) && Enabled(s, a)
    ensures Shaped(t)
  {
    match a
    case DeviceWrite(d) =>
      s.(slots := s.slots[Slot(|s.written|, s.n) := d], written := s.written + [d])
    case GetStart =>
      s.(getter := GetLooking(NextToReceive(s.receiveIndex, s.n)))
    case GetPeek =>
      if s.slots[s.getter.index].reportedSize == 0 then s.(getter := GetIdle)
      else s.(getter := GetFound(s.getter.index))
    case GetTake =>
      s.(receiveIndex := s.getter.index, received := s.received + 1, getter := GetIdle)
    case ReleaseMark(k) =>
      s.(pending := s.pending[Slot(k, s.n) := true], released := s.released + {k}, releaser := Marked)
    case ReleaseStep => StepRelease(s)
  }
}
