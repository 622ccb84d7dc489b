/**
 The DMA buffers of the host as the simulated device reaches them. Reads and writes arrive with physical addresses and
 are redirected to buffer memory; together they behave like one physical memory.
 */
module HostMemory {
  import opened Options
  import opened Words
  import opened ScatterGather
  import opened Windows
  import opened HostLink
  import opened Tlp
  import opened TrnMonitor
  import opened Link
  import opened SimulationLink
  import Completions

  // A buffer: where its bytes lie physically, and its memory as 32-bit words.
  datatype HostBuffer = HostBuffer(segments: seq<Segment>, memory: seq<uint32>)

  datatype Place = Place(buffer: nat, offset: nat)

  // The first buffer, from number i on, that knows the address.
  function FindFrom(buffers: seq<HostBuffer>, address: uint64, i: nat): Option<Place>
    requires i <= |buffers|
    decreases |buffers| - i
  {
    if i == |buffers| then None
    else
      var found := Resolve(buffers[i].segments, address);
      if found.Some? then Some(Place(i, found.value)) else FindFrom(buffers, address, i + 1)
  }

  function Find(buffers: seq<HostBuffer>, address: uint64): Option<Place> {
    FindFrom(buffers, address, 0)
  }

  ghost function BytesOf(buffers: seq<HostBuffer>, i: nat): seq<int>
    requires i < |buffers|
  {
    Bytes(buffers[i].segments)
  }

  // Byte o of buffer i lies at the physical address a.
  ghost predicate IsAt(buffers: seq<HostBuffer>, i: nat, o: nat, a: int) {
    i < |buffers| && o < |BytesOf(buffers, i)| && BytesOf(buffers, i)[o] == a
  }

  ghost predicate RunsOn(buffers: seq<HostBuffer>, i: nat, o: nat, a: int, k: nat) {
    IsAt(buffers, i, o + k, a + k)
  }

  // Each buffer has memory for all its bytes, and no two bytes share a physical address.
  ghost predicate Housed(buffers: seq<HostBuffer>) {
    && (forall i :: 0 <= i < |buffers| ==>
          InAddressSpace(buffers[i].segments) && |BytesOf(buffers, i)| == 4 * |buffers[i].memory|)
    && (forall i, o, j, p, a :: IsAt(buffers, i, o, a) && IsAt(buffers, j, p, a) ==> i == j && o == p)
  }

  lemma {:induction false} FindFromIs(buffers: seq<HostBuffer>, address: uint64, i: nat)
    requires i <= |buffers| && forall j :: 0 <= j < |buffers| ==> InAddressSpace(buffers[j].segments)
    ensures FindFrom(buffers, address, i).Some? ==>
              var p := FindFrom(buffers, address, i).value; IsAt(buffers, p.buffer, p.offset, address)
    ensures FindFrom(buffers, address, i).None? ==>
              forall j, o :: i <= j ==> !IsAt(buffers, j, o, address)
    decreases |buffers| - i
  {
    if i < |buffers| {
      ResolveIs(buffers[i].segments, address);
      FindFromIs(buffers, address, i + 1);
      forall j, o | i <= j && FindFrom(buffers, address, i).None?
        ensures !IsAt(buffers, j, o, address)
      {
        assert address !in BytesOf(buffers, i);
      }
    }
  }

  // An address is found exactly where its byte lies.
  lemma FindIs(buffers: seq<HostBuffer>, address: uint64, i: nat, o: nat)
    requires Housed(buffers)
    ensures Find(buffers, address) == Some(Place(i, o)) <==> IsAt(buffers, i, o, address)
  {
    hide IsAt, FindFrom;
    FindFromIs(buffers, address, 0);
  }

  // The memory word that holds the byte at a physical address.
  function WordAt(buffers: seq<HostBuffer>, address: uint64): Option<uint32> {
    match Find(buffers, address)
    case None => None
    case Some(p) =>
      if p.buffer < |buffers| && p.offset / 4 < |buffers[p.buffer].memory|
      then Some(buffers[p.buffer].memory[p.offset / 4]) else None
  }

  // n words from this address on are whole words of one buffer, physically contiguous.
  ghost predicate Contiguous(buffers: seq<HostBuffer>, address: uint64, n: nat) {
    && address + 4 * n <= TWO_64
    && Find(buffers, address).Some?
    && var p := Find(buffers, address).value;
       p.offset % 4 == 0 && forall k :: 0 <= k < 4 * n ==> RunsOn(buffers, p.buffer, p.offset, address, k)
  }

  function Overwrite(memory: seq<uint32>, start: nat, payload: seq<uint32>): (r: seq<uint32>)
    requires start + |payload| <= |memory|
    ensures |r| == |memory|
    ensures forall k :: 0 <= k < |r| ==>
              r[k] == if start <= k < start + |payload| then payload[k - start] else memory[k]
  {
    memory[..start] + payload + memory[start + |payload|..]
  }

  lemma ContiguousFits(buffers: seq<HostBuffer>, address: uint64, n: nat)
    requires Housed(buffers) && Contiguous(buffers, address, n)
    ensures Find(buffers, address).Some?
    ensures HasRoom(buffers, Find(buffers, address).value, n)
  {
    var p := Find(buffers, address).value;
    FindIs(buffers, address, p.buffer, p.offset);
    if n > 0 {
      assert RunsOn(buffers, p.buffer, p.offset, address, 4 * n - 1);
    }
  }

  // There is room for n words from this place to the end of its buffer.
  predicate HasRoom(buffers: seq<HostBuffer>, p: Place, n: nat) {
    p.buffer < |buffers| && p.offset / 4 + n <= |buffers[p.buffer].memory|
  }

  function StoreAt(buffers: seq<HostBuffer>, p: Place, payload: seq<uint32>): seq<HostBuffer>
    requires HasRoom(buffers, p, |payload|)
  {
    buffers[p.buffer := buffers[p.buffer].(memory := Overwrite(buffers[p.buffer].memory, p.offset / 4, payload))]
  }

  function StoreWords(buffers: seq<HostBuffer>, address: uint64, payload: seq<uint32>): seq<HostBuffer>
    requires Housed(buffers) && Contiguous(buffers, address, |payload|)
  {
    ContiguousFits(buffers, address, |payload|);
    StoreAt(buffers, Find(buffers, address).value, payload)
  }

  // So they are when the segment they start in reaches far enough.
  lemma WithinSegmentIsContiguous(buffers: seq<HostBuffer>, address: uint64, n: nat)
    requires Housed(buffers) && Find(buffers, address).Some? && address + 4 * n <= TWO_64
    requires var p := Find(buffers, address).value;
             && p.offset % 4 == 0 && p.buffer < |buffers|
             && var l := Locate(buffers[p.buffer].segments, p.offset); l.Some? && 4 * n <= l.value.rest
    ensures Contiguous(buffers, address, n)
  {
    var p := Find(buffers, address).value;
    var list := buffers[p.buffer].segments;
    FindIs(buffers, address, p.buffer, p.offset);
    LocateIs(list, p.offset);
    var l := Locate(list, p.offset).value;
    forall k | 0 <= k < 4 * n
      ensures RunsOn(buffers, p.buffer, p.offset, address, k)
    {
      assert Bytes(list)[p.offset..p.offset + l.rest][k] == Span(l.address, l.rest)[k];
      assert Span(l.address, l.rest)[k] == Wrap(address + k) == address + k;
    }
  }

  // Buffers that differ in their contents only.
  ghost predicate SameLayout(a: seq<HostBuffer>, b: seq<HostBuffer>) {
    |a| == |b| && forall i :: 0 <= i < |a| ==> a[i].segments == b[i].segments && |a[i].memory| == |b[i].memory|
  }

  lemma {:induction false} SameLayoutFinds(a: seq<HostBuffer>, b: seq<HostBuffer>, address: uint64, i: nat)
    requires SameLayout(a, b) && i <= |a|
    ensures FindFrom(a, address, i) == FindFrom(b, address, i)
    decreases |a| - i
  {
    if i < |a| {
      SameLayoutFinds(a, b, address, i + 1);
    }
  }

  lemma SameLayoutHoused(a: seq<HostBuffer>, b: seq<HostBuffer>)
    requires SameLayout(a, b) && Housed(a)
    ensures Housed(b)
  {
    forall i, o, j, p, address | IsAt(b, i, o, address) && IsAt(b, j, p, address)
      ensures i == j && o == p
    {
      assert IsAt(a, i, o, address) && IsAt(a, j, p, address);
    }
  }

  lemma SameLayoutContiguous(a: seq<HostBuffer>, b: seq<HostBuffer>, address: uint64, n: nat)
    requires SameLayout(a, b) && Contiguous(a, address, n)
    ensures Contiguous(b, address, n)
  {
    SameLayoutFinds(a, b, address, 0);
    var p := Find(a, address).value;
    forall k | 0 <= k < 4 * n
      ensures RunsOn(b, p.buffer, p.offset, address, k)
    {
      assert RunsOn(a, p.buffer, p.offset, address, k);
    }
  }

  // A word of the target range has one of the range's addresses, and no other has.
  lemma PlaceInRange(buffers: seq<HostBuffer>, address: uint64, n: nat, b: uint64, q: Place)
    requires Housed(buffers) && Contiguous(buffers, address, n) && Find(buffers, b) == Some(q)
    ensures var p := Find(buffers, address).value;
            && (address <= b < address + 4 * n ==> q == Place(p.buffer, p.offset + (b - address)))
            && (q.buffer == p.buffer && p.offset / 4 <= q.offset / 4 < p.offset / 4 + n ==>
                  address <= b < address + 4 * n)
  {
    var p := Find(buffers, address).value;
    FindIs(buffers, b, q.buffer, q.offset);
    if address <= b < address + 4 * n {
      assert RunsOn(buffers, p.buffer, p.offset, address, b - address);
    }
    if q.buffer == p.buffer && p.offset / 4 <= q.offset / 4 < p.offset / 4 + n {
      var k := q.offset - p.offset;
      assert 0 <= k < 4 * n;
      assert RunsOn(buffers, p.buffer, p.offset, address, k);
    }
  }

  lemma RangeIsFound(buffers: seq<HostBuffer>, address: uint64, n: nat, b: uint64)
    requires Housed(buffers) && Contiguous(buffers, address, n) && address <= b < address + 4 * n
    ensures Find(buffers, b) == Some(Place(Find(buffers, address).value.buffer,
                                           Find(buffers, address).value.offset + (b - address)))
  {
    var p := Find(buffers, address).value;
    assert RunsOn(buffers, p.buffer, p.offset, address, b - address);
    FindIs(buffers, b, p.buffer, p.offset + (b - address));
  }

  // A write changes the words at its own physical addresses and nothing else.
  lemma WriteIsPhysical(buffers: seq<HostBuffer>, address: uint64, payload: seq<uint32>, b: uint64)
    requires Housed(buffers) && Contiguous(buffers, address, |payload|)
    ensures var after := StoreWords(buffers, address, payload);
            && SameLayout(buffers, after) && Housed(after)
            && WordAt(after, b) == if address <= b < address + 4 * |payload| then Some(payload[(b - address) / 4])
                                   else WordAt(buffers, b)
  {
    hide Housed, Contiguous, IsAt, RunsOn, FindFrom;
    var after := StoreWords(buffers, address, payload);
    ContiguousFits(buffers, address, |payload|);
    SameLayoutHoused(buffers, after);
    SameLayoutFinds(buffers, after, b, 0);
    var p := Find(buffers, address).value;
    StartIsAligned(buffers, address, |payload|);
    if address <= b < address + 4 * |payload| {
      RangeIsFound(buffers, address, |payload|, b);
      assert (p.offset + (b - address)) / 4 == p.offset / 4 + (b - address) / 4;
    } else if Find(buffers, b).Some? {
      PlaceInRange(buffers, address, |payload|, b, Find(buffers, b).value);
    }
  }

  lemma StartIsAligned(buffers: seq<HostBuffer>, address: uint64, n: nat)
    requires Contiguous(buffers, address, n)
    ensures Find(buffers, address).value.offset % 4 == 0
  {
  }

  // -- Writes that leave their segment -------------------------------------------------------------------------------

  // The word at b lies in the n words from place p.
  predicate LandsOn(buffers: seq<HostBuffer>, p: Place, n: nat, b: uint64) {
    && Find(buffers, b).Some?
    && var q := Find(buffers, b).value;
       q.buffer == p.buffer && p.offset / 4 <= q.offset / 4 < p.offset / 4 + n
  }

  // In any case the payload goes to consecutive words of the buffer, and no other word changes.
  lemma WriteGoesToBuffer(buffers: seq<HostBuffer>, p: Place, payload: seq<uint32>, b: uint64)
    requires Housed(buffers) && HasRoom(buffers, p, |payload|)
    ensures var after := StoreAt(buffers, p, payload);
            && SameLayout(buffers, after) && Housed(after)
            && WordAt(after, b) == if LandsOn(buffers, p, |payload|, b)
                                   then Some(payload[Find(buffers, b).value.offset / 4 - p.offset / 4])
                                   else WordAt(buffers, b)
  {
    hide Housed, IsAt, RunsOn, FindFrom;
    var after := StoreAt(buffers, p, payload);
    SameLayoutHoused(buffers, after);
    SameLayoutFinds(buffers, after, b, 0);
  }

  // What a physical memory would make of the write: the words at the addresses from `address` on are the payload.
  ghost predicate ActsPhysically(buffers: seq<HostBuffer>, p: Place, address: uint64, payload: seq<uint32>)
    requires HasRoom(buffers, p, |payload|)
  {
    forall b: uint64 ::
      WordAt(StoreAt(buffers, p, payload), b)
      == if address <= b < address + 4 * |payload| then Some(payload[(b - address) / 4]) else WordAt(buffers, b)
  }

  // All segments are made of whole words.
  ghost predicate WordSegments(buffers: seq<HostBuffer>) {
    forall i :: 0 <= i < |buffers| ==> PageBacked(buffers[i].segments, Total(buffers[i].segments), 4)
  }

  lemma OffsetRemainder(buffers: seq<HostBuffer>, b: uint64)
    requires Housed(buffers) && WordSegments(buffers) && Find(buffers, b).Some?
    ensures Find(buffers, b).value.offset % 4 == b % 4
  {
    var p := Find(buffers, b).value;
    FindIs(buffers, b, p.buffer, p.offset);
    BytesTotal(buffers[p.buffer].segments);
    BytesFollowPages(buffers[p.buffer].segments, Total(buffers[p.buffer].segments), p.offset, 4);
  }

  // A payload whose word k differs from the one at j, and from the word before.
  function Telling(n: nat, k: nat, before: Option<uint32>): (payload: seq<uint32>)
    requires k < n
    ensures |payload| == n && Some(payload[k]) != before
    ensures forall j :: 0 <= j < n && j != k ==> payload[j] != payload[k]
  {
    var x: uint32 := if before == Some(0) then 1 else 0;
    seq<uint32>(n, j requires 0 <= j < n => if j == k then x else 2)
  }

  // If byte k of the transfer is not physically where the buffer continues, some payload gives it away.
  lemma BrokenRunShows(buffers: seq<HostBuffer>, p: Place, address: uint64, n: nat, k: nat)
    returns (payload: seq<uint32>)
    requires Housed(buffers) && WordSegments(buffers) && HasRoom(buffers, p, n)
    requires address % 4 == 0 && p.offset % 4 == 0 && k < 4 * n && address + 4 * n <= TWO_64
    requires !RunsOn(buffers, p.buffer, p.offset, address, k)
    ensures |payload| == n && !ActsPhysically(buffers, p, address, payload)
  {
    hide Housed, FindFrom, WordSegments;
    var b: uint64 := address + k;
    payload := Telling(n, k / 4, WordAt(buffers, b));
    WriteGoesToBuffer(buffers, p, payload, b);
    assert address <= b < address + 4 * |payload| && (b - address) / 4 == k / 4;
    if LandsOn(buffers, p, n, b) {
      var q := Find(buffers, b).value;
      FindIs(buffers, b, q.buffer, q.offset);
      OffsetRemainder(buffers, b);
      SameWord(address, p.offset, k, q.offset);
    }
  }

  lemma SameWord(address: nat, start: nat, k: nat, offset: nat)
    requires address % 4 == 0 && start % 4 == 0 && offset % 4 == (address + k) % 4
    ensures offset / 4 == start / 4 + k / 4 ==> offset == start + k
  {
  }

  lemma ContiguousActsPhysically(buffers: seq<HostBuffer>, address: uint64, payload: seq<uint32>)
    requires Housed(buffers) && Contiguous(buffers, address, |payload|)
    ensures HasRoom(buffers, Find(buffers, address).value, |payload|)
    ensures ActsPhysically(buffers, Find(buffers, address).value, address, payload)
  {
    hide Housed, Contiguous, FindFrom, WordAt;
    ContiguousFits(buffers, address, |payload|);
    var p := Find(buffers, address).value;
    forall b: uint64
      ensures WordAt(StoreAt(buffers, p, payload), b)
           == if address <= b < address + 4 * |payload| then Some(payload[(b - address) / 4]) else WordAt(buffers, b)
    {
      WriteIsPhysical(buffers, address, payload, b);
    }
  }

  // A write acts like one to a physical memory, whatever it writes, exactly when its target is physically contiguous.
  lemma WriteIsPhysicalExactlyWhen(buffers: seq<HostBuffer>, address: uint64, n: nat)
    requires Housed(buffers) && WordSegments(buffers) && address % 4 == 0 && address + 4 * n <= TWO_64
    requires Find(buffers, address).Some? && HasRoom(buffers, Find(buffers, address).value, n)
    ensures Contiguous(buffers, address, n)
       <==> forall payload: seq<uint32> ::
              |payload| == n ==> ActsPhysically(buffers, Find(buffers, address).value, address, payload)
  {
    hide Housed, RunsOn, FindFrom, WordSegments, WordAt, ActsPhysically;
    var p := Find(buffers, address).value;
    OffsetRemainder(buffers, address);
    if Contiguous(buffers, address, n) {
      forall payload: seq<uint32> | |payload| == n
        ensures ActsPhysically(buffers, p, address, payload)
      {
        ContiguousActsPhysically(buffers, address, payload);
      }
    } else {
      var k :| 0 <= k < 4 * n && !RunsOn(buffers, p.buffer, p.offset, address, k);
      var payload := BrokenRunShows(buffers, p, address, n, k);
    }
  }

  // The completions for a read carry the words at its physical addresses, whatever the packet size.
  lemma ReadIsPhysical(buffers: seq<HostBuffer>, address: uint64, words: nat, header1: uint32, id: nat, packet: nat,
                       k: nat)
    requires Housed(buffers) && Contiguous(buffers, address, words)
    requires 0 < words < 1024 && 0 < packet && packet % 4 == 0 && k < words
    ensures var p := Find(buffers, address).value;
            && HasRoom(buffers, p, words)
            && var request := Request(address, 4 * words, header1);
               var ms := Completions.Split(buffers[p.buffer].memory, p.offset, request.length, request.lowerAddr,
                                           request.tag, request.requester, id, packet);
               && Completions.Answers(ms, 4 * words, address, header1 / 0x100 % 0x100, header1 / 0x1_0000, packet)
               && |Completions.Payloads(ms)| == words
               && WordAt(buffers, address + 4 * k) == Some(Completions.Payloads(ms)[k])
  {
    hide Housed, Contiguous, IsAt, RunsOn, FindFrom, Completions.Split, Completions.Answers, Completions.Payloads;
    ContiguousFits(buffers, address, words);
    StartIsAligned(buffers, address, words);
    AddressFits(buffers, address, words);
    var p := Find(buffers, address).value;
    Completions.RequestIsAnswered(buffers[p.buffer].memory, p.offset, address, words, header1, id, packet);
    RangeIsFound(buffers, address, words, address + 4 * k);
    assert (p.offset + 4 * k) / 4 == p.offset / 4 + k;
  }

  lemma AddressFits(buffers: seq<HostBuffer>, address: uint64, n: nat)
    requires Contiguous(buffers, address, n)
    ensures address + 4 * n <= TWO_64
  {
  }

  // -- Whole runs --------------------------------------------------------------------------------------------------

  datatype HostStore = HostStore(address: uint64, payload: seq<uint32>)

  ghost predicate Reachable(buffers: seq<HostBuffer>, ws: seq<HostStore>) {
    forall w :: w in ws ==> Contiguous(buffers, w.address, |w.payload|)
  }

  function StoreAll(buffers: seq<HostBuffer>, ws: seq<HostStore>): seq<HostBuffer>
    requires Housed(buffers) && Reachable(buffers, ws)
    decreases ws
  {
    if ws == [] then buffers
    else
      assert ws[0] in ws;
      StoreKeepsReachable(buffers, ws);
      StoreAll(StoreWords(buffers, ws[0].address, ws[0].payload), ws[1..])
  }

  lemma StoreKeepsReachable(buffers: seq<HostBuffer>, ws: seq<HostStore>)
    requires Housed(buffers) && Reachable(buffers, ws) && ws != []
    ensures Contiguous(buffers, ws[0].address, |ws[0].payload|)
    ensures var after := StoreWords(buffers, ws[0].address, ws[0].payload);
            Housed(after) && Reachable(after, ws[1..])
  {
    hide Housed, Contiguous;
    assert ws[0] in ws;
    var after := StoreWords(buffers, ws[0].address, ws[0].payload);
    WriteIsPhysical(buffers, ws[0].address, ws[0].payload, ws[0].address);
    forall w | w in ws[1..]
      ensures Contiguous(after, w.address, |w.payload|)
    {
      assert w in ws;
      SameLayoutContiguous(buffers, after, w.address, |w.payload|);
    }
  }

  // One physical memory: what a word holds after the writes, given what it held before. The last write wins.
  function Physical(before: Option<uint32>, ws: seq<HostStore>, b: uint64): Option<uint32>
    decreases ws
  {
    if ws == [] then before
    else
      var w := ws[0];
      Physical(if w.address <= b < w.address + 4 * |w.payload| then Some(w.payload[(b - w.address) / 4]) else before,
               ws[1..], b)
  }

  lemma {:induction false} WritesArePhysical(buffers: seq<HostBuffer>, ws: seq<HostStore>, b: uint64)
    requires Housed(buffers) && Reachable(buffers, ws)
    ensures WordAt(StoreAll(buffers, ws), b) == Physical(WordAt(buffers, b), ws, b)
    decreases ws
  {
    if ws != [] {
      hide Housed, Contiguous, Reachable, StoreWords, WordAt;
      StoreKeepsReachable(buffers, ws);
      WriteIsPhysical(buffers, ws[0].address, ws[0].payload, b);
      WritesArePhysical(StoreWords(buffers, ws[0].address, ws[0].payload), ws[1..], b);
    }
  }

  // The writes among the events of the host, and among the packets of the device.
  function StoresOf(events: seq<HostEvent>): seq<HostStore> {
    if events == [] then []
    else
      (if events[0].HostWrite? then [HostStore(events[0].address, events[0].payload)] else [])
      + StoresOf(events[1..])
  }

  function PacketStores(ps: seq<Packet>): seq<HostStore> {
    if ps == [] then []
    else
      (match ps[0]
       case Write64(_, _, high, low, data) => [HostStore(Join64(high, low), data)]
       case Write32(_, _, address, data) => [HostStore(address, data)]
       case _ => [])
      + PacketStores(ps[1..])
  }

  lemma {:induction false} AnswersHoldStores(events: seq<HostEvent>)
    ensures StoresOf(AnswerEvents(events)) == StoresOf(events)
  {
    if events != [] {
      AnswersHoldStores(events[1..]);
      var answers, rest := AnswerEvents(events), AnswerEvents(events[1..]);
      if events[0].CompletionAcknowledged? || events[0].WriteAcknowledged? {
        assert answers == rest;
      } else {
        assert answers == [events[0]] + rest;
      }
    }
  }

  lemma {:induction false} EventsHoldPacketStores(events: seq<HostEvent>, ps: seq<Packet>)
    requires forall p :: p in ps ==> WellFormed(p)
    requires |events| == |ps| && forall i :: 0 <= i < |ps| ==> events[i] == Meaning(ps[i])
    ensures StoresOf(events) == PacketStores(ps)
    decreases ps
  {
    if ps != [] {
      hide Request, Join64;
      EventsHoldPacketStores(events[1..], ps[1..]);
      assert events[0] == Meaning(ps[0]);
    }
  }

  // End to end: whatever packets the device sends, with whatever pauses, the host's buffers end up as one physical
  // memory would after the delivered writes, in order.
  lemma DeviceWritesArePhysical(ps: seq<Packet>, clocks: seq<Clock>, buffers: seq<HostBuffer>, b: uint64)
    requires forall p :: p in ps ==> WellFormed(p)
    requires Shows(Transferred(clocks), AllBeats(ps))
    requires Housed(buffers) && Reachable(buffers, PacketStores(Delivered(ps)))
    ensures forall m :: m in Run(Idle, clocks).1 ==> Regular(m)
    ensures var ws := StoresOf(Parse(StreamOf(Run(Idle, clocks).1)));
            && Reachable(buffers, ws)
            && WordAt(StoreAll(buffers, ws), b) == Physical(WordAt(buffers, b), PacketStores(Delivered(ps)), b)
  {
    hide Housed, Reachable, StoreAll, WordAt, Physical, Meaning, WellFormed, Run, Parse, StreamOf, Regular, Transferred,
         AllBeats, StoresOf, PacketStores;
    HostPerformsPackets(ps, clocks);
    var events := Parse(StreamOf(Run(Idle, clocks).1));
    AnswersHoldStores(events);
    EventsHoldPacketStores(AnswerEvents(events), Delivered(ps));
    WritesArePhysical(buffers, StoresOf(events), b);
  }

  class HostMemory {
    var buffers: seq<HostBuffer>

    constructor (buffers: seq<HostBuffer>)
      ensures this.buffers == buffers
    {
      this.buffers := buffers;
    }

    // Ask one buffer after the other for the address.
    method GetOffset(address: uint64) returns (found: Option<Place>)
      ensures found == Find(buffers, address)
    {
      var i := 0;
      while i < |buffers|
        invariant 0 <= i <= |buffers|
        invariant FindFrom(buffers, address, i) == Find(buffers, address)
      {
        var offset := Resolve(buffers[i].segments, address);
        if offset.Some? {
          return Some(Place(i, offset.value));
        }
        i := i + 1;
      }
      found := None;
    }

    // An unknown address ends the program: nothing is written. The payload must not run past the buffer.
    method DoWriteToHost(address: uint64, payload: seq<uint32>) returns (ok: bool)
      requires var p := Find(buffers, address); p.Some? ==> HasRoom(buffers, p.value, |payload|)
      modifies this
      ensures ok == Find(old(buffers), address).Some?
      ensures buffers == if ok then StoreAt(old(buffers), Find(old(buffers), address).value, payload) else old(buffers)
    {
      var found := GetOffset(address);
      if found.None? {
        return false;
      }
      var p := found.value;
      var memory, start, i := buffers[p.buffer].memory, p.offset / 4, 0;
      while i < |payload|
        invariant 0 <= i <= |payload| && |memory| == |buffers[p.buffer].memory|
        invariant memory == Overwrite(buffers[p.buffer].memory, start, payload[..i])
      {
        memory := memory[start + i := payload[i]];
        i := i + 1;
      }
      assert payload[..i] == payload;
      buffers := buffers[p.buffer := buffers[p.buffer].(memory := memory)];
      ok := true;
    }
  }
}
