/** The report ring between calls, the effect of each call as one step, and why the order of releases is irrelevant. */
module RingSpec {
  import opened Words
  import opened Slots
  import opened RingProtocol
  import opened RingInvariant
  import opened RingRuns

  datatype Ring = Ring(
    slots: seq<Descriptor>,
    pending: seq<bool>,
    receiveIndex: uint64,
    releaseIndex: nat,
    published: Pointers
  )

  ghost predicate Sized(r: Ring) {
    && 0 < |r.slots| == |r.pending|
    && |r.slots| * DESCRIPTOR_BYTES < TWO_64
    && r.releaseIndex < |r.slots|
    && (r.receiveIndex == EVENT_INDEX_UNDEFINED || r.receiveIndex < |r.slots|)
  }

  // How many set entries of the release map follow each other from index at, going around at most once.
  function RunLength(pending: seq<bool>, at: nat, limit: nat): (m: nat)
    requires at < |pending|
    ensures m <= limit
    decreases limit
  {
    if limit == 0 || !pending[at] then 0
    else 1 + RunLength(pending, Next(at, |pending|), limit - 1)
  }

  // How far index i lies behind base, going around.
  function Distance(i: nat, base: nat, n: nat): nat
    requires i < n && base < n
  {
    if base <= i then i - base else n - base + i
  }

  // The slot m steps after base, for m up to a full turn.
  function Walk(base: nat, m: nat, n: nat): nat
    requires base < n && m <= n
  {
    if base + m < n then base + m else base + m - n
  }

  // Retire the contiguous released prefix: zero its slots and map entries and publish its last event.
  function Retire(r: Ring): (t: Ring)
    requires Sized(r)
    ensures Sized(t) && |t.slots| == |r.slots|
  {
    var n := |r.slots|;
    var m := RunLength(r.pending, r.releaseIndex, n);
    if m == 0 then r
    else
      var last := Walk(r.releaseIndex, m - 1, n);
      Ring(seq(n, i requires 0 <= i < n =>
             if Distance(i, r.releaseIndex, n) < m then CLEARED else r.slots[i]),
           seq(n, i requires 0 <= i < n =>
             Distance(i, r.releaseIndex, n) >= m && r.pending[i]),
           r.receiveIndex,
           Walk(r.releaseIndex, m, n),
           Pointers(r.slots[last].offset, last * DESCRIPTOR_BYTES))
  }

  function Release(r: Ring, reference: nat): (t: Ring)
    requires Sized(r)
    ensures Sized(t) && |t.slots| == |r.slots|
  {
    if reference >= |r.slots| then r else Retire(r.(pending := r.pending[reference := true]))
  }

  function ReleaseAll(r: Ring, references: seq<nat>): (t: Ring)
    requires Sized(r)
    ensures Sized(t) && |t.slots| == |r.slots|
    decreases references
  {
    if references == [] then r else ReleaseAll(Release(r, references[0]), references[1..])
  }

  // Receive the next event: its reference and descriptor, or nothing when its slot is zero.
  function Receive(r: Ring): (result: (Ring, bool, nat, Descriptor))
    requires Sized(r)
    ensures Sized(result.0)
  {
    var index := NextToReceive(r.receiveIndex, |r.slots|);
    if r.slots[index].reportedSize == 0 then (r, false, 0, CLEARED)
    else (r.(receiveIndex := index), true, index, r.slots[index])
  }

  // -- Walking around the ring -------------------------------------------------------------------------------------

  lemma {:induction false} DistanceSlot(base: nat, k: nat, n: nat)
    requires 0 < n && base <= k < base + n
    ensures Distance(Slot(k, n), Slot(base, n), n) == k - base
    ensures Walk(Slot(base, n), k - base, n) == Slot(k, n)
    decreases k
  {
    if k > base {
      DistanceSlot(base, k - 1, n);
      SlotStep(k - 1, n);
      SlotDistinct(base, k, n);
    }
  }

  // The run length is the number of consecutive set entries: all before it are set, and the one after it is not,
  // unless the whole ring is set.
  lemma {:induction false} RunLengthIs(pending: seq<bool>, base: nat, limit: nat, n: nat)
    requires 0 < n == |pending|
    ensures var m := RunLength(pending, Slot(base, n), limit);
            && (forall k {:trigger Slot(k, n)} :: base <= k < base + m ==> pending[Slot(k, n)])
            && (m < limit ==> !pending[Slot(base + m, n)])
    decreases limit
  {
    if limit > 0 && pending[Slot(base, n)] {
      SlotStep(base, n);
      RunLengthIs(pending, base + 1, limit - 1, n);
    }
  }

  // -- The ring between calls --------------------------------------------------------------------------------------

  datatype History = History(n: nat, initial: Pointers, written: seq<Descriptor>, received: nat, released: set<nat>)

  ghost predicate Plausible(h: History) {
    && 0 < h.n && h.n * DESCRIPTOR_BYTES < TWO_64
    && h.received <= |h.written|
  }

  // The whole ring follows from what was written, received and released: the first `retired` events are gone.
  ghost predicate Settled(r: Ring, h: History, retired: nat) {
    && Plausible(h) && Sized(r) && |r.slots| == h.n
    && retired <= h.received
    && |h.written| < retired + h.n
    && Contents(h.n, r.slots, h.written, retired)
    && ReleaseMap(h.n, r.pending, h.released, retired, h.received)
    && r.releaseIndex == Slot(retired, h.n)
    && !r.pending[r.releaseIndex]
    && r.receiveIndex == (if h.received == 0 then EVENT_INDEX_UNDEFINED else Slot(h.received - 1, h.n))
    && r.published == PointersAfter(h.n, h.initial, h.written, retired)
  }

  function MemoryOf(s: State): Ring {
    Ring(s.slots, s.pending, s.receiveIndex, s.releaseIndex, s.published)
  }

  function HistoryOf(s: State): History {
    History(s.n, s.initial, s.written, s.received, s.released)
  }

  lemma IdleIsSettled(s: State)
    requires Inv(s) && s.releaser.ReleaseIdle?
    ensures Settled(MemoryOf(s), HistoryOf(s), s.retired)
  {
  }

  // At rest an event is retired exactly when it and all events before it are released.
  lemma RetiredIsReleasedPrefix(r: Ring, h: History, retired: nat)
    requires Settled(r, h, retired)
    ensures retired !in h.released && forall k :: 0 <= k < retired ==> k in h.released
  {
    assert r.pending[Slot(retired, h.n)] == (retired in h.released);
  }

  // Two rings at rest with the same history are the same.
  lemma SettledUnique(r: Ring, t: Ring, h: History, a: nat, b: nat)
    requires Settled(r, h, a) && Settled(t, h, b)
    ensures a == b && r == t
  {
    RetiredIsReleasedPrefix(r, h, a);
    RetiredIsReleasedPrefix(t, h, b);
    assert a == b;
    forall i | 0 <= i < h.n
      ensures r.slots[i] == t.slots[i] && r.pending[i] == t.pending[i]
    {
      var k := SlotCover(a, i, h.n);
      assert r.pending[Slot(k, h.n)] == (k in h.released);
      assert t.pending[Slot(k, h.n)] == (k in h.released);
      if k < |h.written| {
        assert r.slots[Slot(k, h.n)] == h.written[k];
        assert t.slots[Slot(k, h.n)] == h.written[k];
      }
    }
    assert r.slots == t.slots && r.pending == t.pending;
  }

  // As Settled, but with the entry at the release index possibly marked: the moment before a retirement.
  ghost predicate Unsettled(r: Ring, h: History, retired: nat) {
    && Plausible(h) && Sized(r) && |r.slots| == h.n
    && retired <= h.received
    && |h.written| < retired + h.n
    && Contents(h.n, r.slots, h.written, retired)
    && ReleaseMap(h.n, r.pending, h.released, retired, h.received)
    && r.releaseIndex == Slot(retired, h.n)
    && r.receiveIndex == (if h.received == 0 then EVENT_INDEX_UNDEFINED else Slot(h.received - 1, h.n))
  }

  lemma RunStaysReceived(r: Ring, h: History, retired: nat)
    requires Unsettled(r, h, retired)
    ensures var m := RunLength(r.pending, r.releaseIndex, h.n);
            && retired + m <= h.received
            && (forall k {:trigger k in h.released} :: retired <= k < retired + m ==> k in h.released)
            && retired + m !in h.released
            && !r.pending[Slot(retired + m, h.n)]
  {
    var m := RunLength(r.pending, r.releaseIndex, h.n);
    RunLengthIs(r.pending, retired, h.n, h.n);
    assert !r.pending[Slot(h.received, h.n)];
    if retired + m > h.received {
      assert false;
    }
    forall k {:trigger k in h.released} | retired <= k < retired + m
      ensures k in h.released
    {
      assert r.pending[Slot(k, h.n)] == (k in h.released);
    }
    assert r.pending[Slot(retired + m, h.n)] == (retired + m in h.released);
  }

  lemma RetiredContents(r: Ring, h: History, retired: nat, m: nat)
    requires Unsettled(r, h, retired) && m == RunLength(r.pending, r.releaseIndex, h.n) && 0 < m
    requires retired + m <= h.received
    ensures Contents(h.n, Retire(r).slots, h.written, retired + m)
  {
    var n, t := h.n, Retire(r).slots;
    forall k | retired + m <= k < |h.written|
      ensures t[Slot(k, n)] == h.written[k]
    {
      DistanceSlot(retired, k, n);
      assert r.slots[Slot(k, n)] == h.written[k];
    }
    forall k {:trigger Slot(k, n)} | |h.written| <= k < retired + m + n
      ensures t[Slot(k, n)] == CLEARED
    {
      if k < retired + n {
        DistanceSlot(retired, k, n);
      } else {
        SlotPeriod(k - n, n);
        DistanceSlot(retired, k - n, n);
      }
    }
  }

  lemma RetiredMap(r: Ring, h: History, retired: nat, m: nat)
    requires Unsettled(r, h, retired) && m == RunLength(r.pending, r.releaseIndex, h.n) && 0 < m
    requires retired + m <= h.received
    requires forall k {:trigger k in h.released} :: retired <= k < retired + m ==> k in h.released
    ensures ReleaseMap(h.n, Retire(r).pending, h.released, retired + m, h.received)
  {
    var n, t := h.n, Retire(r).pending;
    forall k {:trigger Slot(k, n)} | retired + m <= k < retired + m + n
      ensures t[Slot(k, n)] == (k in h.released)
    {
      if k < retired + n {
        DistanceSlot(retired, k, n);
        assert r.pending[Slot(k, n)] == (k in h.released);
      } else {
        SlotPeriod(k - n, n);
        DistanceSlot(retired, k - n, n);
        assert k !in h.released;
      }
    }
  }

  lemma WrittenSlot(r: Ring, h: History, retired: nat, k: nat)
    requires Unsettled(r, h, retired) && retired <= k < |h.written|
    ensures r.slots[Slot(k, h.n)] == h.written[k]
  {
  }

  lemma RetireSettles(r: Ring, h: History, retired: nat) returns (retired': nat)
    requires Unsettled(r, h, retired)
    requires RunLength(r.pending, r.releaseIndex, h.n) == 0 ==>
               r.published == PointersAfter(h.n, h.initial, h.written, retired)
    ensures Settled(Retire(r), h, retired')
  {
    hide Contents, Slot, RunLength, Distance, Walk;
    var n, m := h.n, RunLength(r.pending, r.releaseIndex, h.n);
    RunStaysReceived(r, h, retired);
    retired' := retired + m;
    if m > 0 {
      RetiredContents(r, h, retired, m);
      RetiredMap(r, h, retired, m);
      DistanceSlot(retired, retired', n);
      DistanceSlot(retired, retired' - 1, n);
      WrittenSlot(r, h, retired, retired' - 1);
      assert Retire(r).pending[Slot(retired', n)] == (retired' in h.released);
    }
  }

  lemma SettledRelease(r: Ring, h: History, retired: nat, k: nat) returns (retired': nat)
    requires Settled(r, h, retired) && k < h.received && k !in h.released
    ensures Settled(Release(r, Slot(k, h.n)), h.(released := h.released + {k}), retired')
  {
    var n, h' := h.n, h.(released := h.released + {k});
    var marked := r.(pending := r.pending[Slot(k, n) := true]);
    RetiredIsReleasedPrefix(r, h, retired);
    OtherSlots(retired, k, n);
    assert ReleaseMap(n, marked.pending, h'.released, retired, h'.received);
    retired' := RetireSettles(marked, h', retired);
  }

  // A release that runs on its own, step by step, ends in the state the one-step release gives.
  lemma ReleaseIsOneStep(s: State, k: nat)
    requires Inv(s) && Enabled(s, ReleaseMark(k))
    ensures Inv(Apply(s, ReleaseMark(k)))
    ensures MemoryOf(Finish(Apply(s, ReleaseMark(k)))) == Release(MemoryOf(s), Slot(k, s.n))
  {
    StepInv(s, ReleaseMark(k));
    var t := Finish(Apply(s, ReleaseMark(k)));
    IdleIsSettled(s);
    IdleIsSettled(t);
    var retired := SettledRelease(MemoryOf(s), HistoryOf(s), s.retired, k);
    SettledUnique(MemoryOf(t), Release(MemoryOf(s), Slot(k, s.n)), HistoryOf(t), t.retired, retired);
  }

  // The three steps of a receive, run on their own, are the one-step receive.
  lemma ReceiveIsOneStep(s: State)
    requires Inv(s) && s.getter.GetIdle?
    ensures var looked := Apply(s, GetStart);
            var peeked := Apply(looked, GetPeek);
            var (r, found, reference, report) := Receive(MemoryOf(s));
            && (found <==> s.received < |s.written|)
            && found == peeked.getter.GetFound?
            && (found ==>
                  && MemoryOf(Apply(peeked, GetTake)) == r
                  && Observe(peeked, GetTake) == Delivered(reference, report)
                  && reference == Slot(s.received, s.n) && report == s.written[s.received])
            && (!found ==> MemoryOf(peeked) == r == MemoryOf(s))
  {
    StepInv(s, GetStart);
    hide StepRelease, ReleaseMap, CountTrue, Slot, Releaser, Acknowledged;
    var looked := Apply(s, GetStart);
    PeekFindsExactlyWhenNonEmpty(looked);
    if s.received < |s.written| {
      assert s.slots[Slot(s.received, s.n)] == s.written[s.received];
    }
  }

  // Any two interleavings that have seen the same writes, receives and releases, and have no release under way, agree
  // on the whole ring.
  lemma InterleavingsAgree(n: nat, eventPointer: uint64, run1: seq<Action>, run2: seq<Action>)
    requires 0 < n && n * DESCRIPTOR_BYTES < TWO_64
    requires Legal(Initial(n, eventPointer), run1) && Legal(Initial(n, eventPointer), run2)
    requires var s, t := Run(Initial(n, eventPointer), run1), Run(Initial(n, eventPointer), run2);
             && s.releaser.ReleaseIdle? && t.releaser.ReleaseIdle?
             && HistoryOf(s) == HistoryOf(t)
    ensures MemoryOf(Run(Initial(n, eventPointer), run1)) == MemoryOf(Run(Initial(n, eventPointer), run2))
  {
    var start := Initial(n, eventPointer);
    InitialInv(n, eventPointer);
    RunInv(start, run1);
    RunInv(start, run2);
    var s, t := Run(start, run1), Run(start, run2);
    IdleIsSettled(s);
    IdleIsSettled(t);
    SettledUnique(MemoryOf(s), MemoryOf(t), HistoryOf(s), s.retired, t.retired);
  }

  // -- The order of releases ---------------------------------------------------------------------------------------

  // Received, not yet released, and each listed once.
  ghost predicate Outstanding(h: History, events: seq<nat>) {
    forall k :: k in events ==> k < h.received && k !in h.released && multiset(events)[k] == 1
  }

  function References(events: seq<nat>, n: nat): seq<nat>
    requires 0 < n
  {
    if events == [] then [] else [Slot(events[0], n)] + References(events[1..], n)
  }

  ghost function Elements(events: seq<nat>): set<nat> {
    set k | k in events
  }

  lemma OutstandingRest(h: History, events: seq<nat>)
    requires Outstanding(h, events) && events != []
    ensures Outstanding(h.(released := h.released + {events[0]}), events[1..])
    ensures h.released + {events[0]} + Elements(events[1..]) == h.released + Elements(events)
  {
    assert events == [events[0]] + events[1..];
    assert multiset(events) == multiset{events[0]} + multiset(events[1..]);
    forall k | k in events[1..]
      ensures k in events && multiset(events[1..])[k] == 1 && k != events[0]
    {
      assert k in multiset(events[1..]);
      assert k in events;
    }
  }

  lemma {:induction false} ReleaseAllSettles(r: Ring, h: History, retired: nat, events: seq<nat>)
    returns (retired': nat)
    requires Settled(r, h, retired) && Outstanding(h, events)
    ensures Settled(ReleaseAll(r, References(events, h.n)), h.(released := h.released + Elements(events)), retired')
    decreases events
  {
    if events == [] {
      assert h.released + Elements(events) == h.released;
      retired' := retired;
    } else {
      var k, rest := events[0], events[1..];
      var h1 := h.(released := h.released + {k});
      var retired1 := SettledRelease(r, h, retired, k);
      OutstandingRest(h, events);
      retired' := ReleaseAllSettles(Release(r, Slot(k, h.n)), h1, retired1, rest);
      assert References(events, h.n)[1..] == References(rest, h.n);
      assert ReleaseAll(r, References(events, h.n)) == ReleaseAll(Release(r, Slot(k, h.n)), References(rest, h.n));
      assert h1.(released := h1.released + Elements(rest)) == h.(released := h.released + Elements(events));
    }
  }

  // Releasing the same outstanding events in any order gives the same ring and the same published pointers.
  lemma ReleaseOrderIrrelevant(r: Ring, h: History, retired: nat, events: seq<nat>, permuted: seq<nat>)
    requires Settled(r, h, retired) && Outstanding(h, events)
    requires multiset(events) == multiset(permuted)
    ensures ReleaseAll(r, References(events, h.n)) == ReleaseAll(r, References(permuted, h.n))
  {
    PermutedOutstanding(h, events, permuted);
    var a := ReleaseAllSettles(r, h, retired, events);
    var b := ReleaseAllSettles(r, h, retired, permuted);
    SettledUnique(ReleaseAll(r, References(events, h.n)), ReleaseAll(r, References(permuted, h.n)),
                  h.(released := h.released + Elements(events)), a, b);
  }

  lemma PermutedOutstanding(h: History, events: seq<nat>, permuted: seq<nat>)
    requires Outstanding(h, events) && multiset(events) == multiset(permuted)
    ensures Outstanding(h, permuted) && Elements(events) == Elements(permuted)
  {
    forall k
      ensures k in events <==> k in permuted
    {
      assert k in multiset(events) <==> k in multiset(permuted);
    }
  }

  // Handing everything back frees the whole ring: a device with at least two slots can always write again.
  lemma ReleasingEverythingUnblocks(s: State, d: Descriptor)
    requires Inv(s) && s.releaser.ReleaseIdle? && d.reportedSize != 0
    requires s.received == |s.written| && forall k :: 0 <= k < s.received ==> k in s.released
    ensures s.retired == |s.written|
    ensures Enabled(s, DeviceWrite(d)) <==> s.n >= 2
  {
    IdleIsSettled(s);
    RetiredIsReleasedPrefix(MemoryOf(s), HistoryOf(s), s.retired);
    DeviceStallsExactlyWhenFull(s, d);
  }

  // -- The two counters a caller can read ----------------------------------------------------------------------------

  function FillCount(r: Ring): int
  {
    if r.receiveIndex == EVENT_INDEX_UNDEFINED then 0
    else if r.receiveIndex >= r.releaseIndex then r.receiveIndex - r.releaseIndex
    else |r.slots| - (r.releaseIndex - r.receiveIndex)
  }

  // getNumberOfPendingReleases counts events that were released but not retired, not those received but not released.
  lemma PendingCountsReleasedNotRetired(s: State)
    requires Inv(s)
    ensures |s.released| == s.retired + CountTrue(s.pending)
    ensures s.releaser.ReleaseIdle? ==> !s.pending[s.releaseIndex]
  {
  }

  // getRingbufferFillCount is one less than the number of events received and not retired, modulo n.
  lemma FillCountIs(r: Ring, h: History, retired: nat)
    requires Settled(r, h, retired)
    ensures FillCount(r) == if h.received == 0 then 0
                            else if h.received == retired then h.n - 1 else h.received - retired - 1
    ensures h.n >= 2 ==> (FillCount(r) == h.received - retired <==> r.receiveIndex == EVENT_INDEX_UNDEFINED)
  {
    hide Contents, ReleaseMap, Slot;
    var n := h.n;
    if h.received > 0 {
      assert r.receiveIndex == Slot(h.received - 1, n);
      if h.received == retired {
        SlotPeriod(retired - 1, n);
        DistanceSlot(retired, retired - 1 + n, n);
      } else {
        DistanceSlot(retired, h.received - 1, n);
      }
    }
  }

  // At rest, with p the oldest event not handed back, it is the documented number exactly when the events handed back
  // are half of those received plus p. A caller that logs its calls knows all three.
  lemma PendingIsAsDocumentedExactlyWhen(s: State, p: nat)
    requires Inv(s) && s.releaser.ReleaseIdle?
    requires p !in s.released && forall k :: 0 <= k < p ==> k in s.released
    ensures CountTrue(s.pending) == |s.released| - p
    ensures CountTrue(s.pending) == s.received - |s.released| <==> 2 * |s.released| == s.received + p
  {
    hide Slot, CountTrue;
    IdleIsSettled(s);
    RetiredIsReleasedPrefix(MemoryOf(s), HistoryOf(s), s.retired);
    assert s.retired == p;
  }

  // For a caller that hands events back in the order received it is 0, which is right only when it holds none.
  lemma PendingOfInOrderCaller(s: State, p: nat)
    requires Inv(s) && s.releaser.ReleaseIdle?
    requires forall k :: k in s.released <==> 0 <= k < p
    ensures |s.released| == p && CountTrue(s.pending) == 0
    ensures CountTrue(s.pending) == s.received - |s.released| <==> s.received == p
  {
    hide Slot, CountTrue, Inv;
    PendingIsAsDocumentedExactlyWhen(s, p);
    NumbersBelow(s.released, p);
  }

  lemma {:induction false} NumbersBelow(numbers: set<nat>, bound: nat)
    requires forall k :: k in numbers ==> k < bound
    ensures |numbers| <= bound
  {
    if bound > 0 {
      var rest := numbers - {bound - 1};
      NumbersBelow(rest, bound - 1);
      assert numbers <= rest + {bound - 1};
      assert |numbers| <= |rest| + 1 by {
        if bound - 1 in numbers {
          assert numbers == rest + {bound - 1};
        } else {
          assert numbers == rest;
        }
      }
    } else {
      assert numbers == {};
    }
  }

  // One event received and none released: the documented number is 1, the counter says 0.
  lemma PendingIsNotAsDocumented(d: Descriptor)
    requires d.reportedSize != 0
    ensures var run := [DeviceWrite(d), GetStart, GetPeek, GetTake];
            && Legal(Initial(2, 0), run)
            && var s := Run(Initial(2, 0), run);
               s.received == 1 && s.released == {} && CountTrue(s.pending) == 0
  {
    var s0 := Initial(2, 0);
    var run := [DeviceWrite(d), GetStart, GetPeek, GetTake];
    var s1 := Apply(s0, DeviceWrite(d));
    var s2 := Apply(s1, GetStart);
    var s3 := Apply(s2, GetPeek);
    var s4 := Apply(s3, GetTake);
    assert run[1..] == [GetStart, GetPeek, GetTake] && run[1..][1..] == [GetPeek, GetTake];
    assert run[1..][1..][1..] == [GetTake] && run[1..][1..][1..][1..] == [];
    assert Legal(s4, []) && Run(s4, []) == s4;
    assert Legal(s3, [GetTake]) && Run(s3, [GetTake]) == s4;
    assert Legal(s2, [GetPeek, GetTake]) && Run(s2, [GetPeek, GetTake]) == s4;
    assert Legal(s1, run[1..]) && Run(s1, run[1..]) == s4;
    CountNone(s4.pending);
  }
}
