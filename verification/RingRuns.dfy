/** Whole runs of the ring protocol: safety, first-in first-out delivery, and progress of a release. */
module RingRuns {
  import opened Words
  import opened Slots
  import opened RingProtocol
  import opened RingInvariant

  ghost predicate Legal(s: State, run: seq<Action>)
    decreases run
  {
    Shaped(s) && (run == [] || (Enabled(s, run[0]) && Legal(Apply(s, run[0]), run[1..])))
  }

  ghost function Run(s: State, run: seq<Action>): State
    requires Legal(s, run)
    decreases run
  {
    if run == [] then s else Run(Apply(s, run[0]), run[1..])
  }

  lemma {:induction false} RunInv(s: State, run: seq<Action>)
    requires Inv(s) && Legal(s, run)
    ensures Inv(Run(s, run)) && Run(s, run).n == s.n && Run(s, run).initial == s.initial
    decreases run
  {
    if run != [] {
      StepInv(s, run[0]);
      RunInv(Apply(s, run[0]), run[1..]);
    }
  }

  // In every interleaving: acknowledged <= zeroed <= retired <= received <= written <= acknowledged + n - 1.
  lemma RunKeepsOrder(n: nat, eventPointer: uint64, run: seq<Action>)
    requires 0 < n && n * DESCRIPTOR_BYTES < TWO_64 && Legal(Initial(n, eventPointer), run)
    ensures var s := Run(Initial(n, eventPointer), run);
            s.acknowledged <= s.cleared <= s.retired <= s.received <= |s.written| <= s.acknowledged + n - 1
  {
    InitialInv(n, eventPointer);
    RunInv(Initial(n, eventPointer), run);
  }

  // A write of the device hits a zeroed slot, never one whose event is still to be received, released or zeroed.
  lemma DeviceWritesOnlyZeroedSlots(s: State, d: Descriptor)
    requires Inv(s) && Enabled(s, DeviceWrite(d))
    ensures s.slots[Slot(|s.written|, s.n)] == CLEARED
    ensures forall k {:trigger s.written[k]} ::
              s.cleared <= k < |s.written| ==> Slot(k, s.n) != Slot(|s.written|, s.n)
  {
    DeviceRoom(s);
    OtherSlots(s.cleared, |s.written|, s.n);
  }

  // The memset of a release only ever zeroes descriptors of released events, oldest first, and the offset that will be
  // sent to the device was read before.
  lemma ClearsOnlyReleasedEvents(s: State)
    requires Inv(s) && s.releaser.Clearing? && s.releaser.left > 0
    ensures var k := s.cleared;
            && k < s.received && k in s.released
            && s.releaser.next == Slot(k, s.n)
            && s.slots[s.releaser.next] == s.written[k]
            && s.releaser.last.event == s.written[s.retired - 1].offset
  {
    assert s.slots[Slot(s.cleared, s.n)] == s.written[s.cleared];
  }

  // The descriptor handed out for an event stays in its slot until the event is released.
  lemma DescriptorStaysUntilReleased(s: State, k: nat)
    requires Inv(s) && k < s.received && k !in s.released
    ensures s.slots[Slot(k, s.n)] == s.written[k]
  {
  }

  // -- First in, first out ---------------------------------------------------------------------------------------

  // What a step shows to the outside, read off the shared memory.
  datatype Observation =
    | Silent
    | Pushed(descriptor: Descriptor)
    | Delivered(reference: nat, report: Descriptor)
    | ReportedEmpty

  function Observe(s: State, a: Action): Observation
    requires Shaped(s) && Enabled(s, a)
  {
    match a
    case DeviceWrite(d) => Pushed(d)
    case GetPeek => if s.slots[s.getter.index].reportedSize == 0 then ReportedEmpty else Silent
    case GetTake => Delivered(s.getter.index, s.slots[s.getter.index])
    case _ => Silent
  }

  ghost function Trace(s: State, run: seq<Action>): seq<Observation>
    requires Legal(s, run)
    decreases run
  {
    if run == [] then [] else [Observe(s, run[0])] + Trace(Apply(s, run[0]), run[1..])
  }

  /** An unbounded queue, with the number of items taken from it so far. */
  datatype Queue = Queue(items: seq<Descriptor>, taken: nat)

  // The queue after an observation that it allows; references count the taken items around the ring.
  ghost predicate QueueStep(n: nat, q: Queue, o: Observation, r: Queue)
    requires 0 < n
  {
    match o
    case Silent => r == q
    case Pushed(d) => r == Queue(q.items + [d], q.taken)
    case Delivered(reference, d) =>
      q.items != [] && d == q.items[0] && reference == Slot(q.taken, n) && r == Queue(q.items[1..], q.taken + 1)
    case ReportedEmpty => q.items == [] && r == q
  }

  ghost predicate QueueRun(n: nat, q: Queue, os: seq<Observation>, r: Queue)
    requires 0 < n
    decreases os
  {
    if os == [] then r == q
    else exists m :: QueueStep(n, q, os[0], m) && QueueRun(n, m, os[1..], r)
  }

  ghost function QueueOf(s: State): Queue
    requires s.received <= |s.written|
  {
    Queue(s.written[s.received..], s.received)
  }

  lemma TakeRefinesQueue(s: State)
    requires Inv(s) && Enabled(s, GetTake)
    ensures QueueStep(s.n, QueueOf(s), Observe(s, GetTake), QueueOf(Apply(s, GetTake)))
  {
    hide Slot, ReleaseMap, CountTrue, Releaser, Acknowledged;
    assert s.slots[Slot(s.received, s.n)] == s.written[s.received];
  }

  lemma WriteRefinesQueue(s: State, d: Descriptor)
    requires Shaped(s) && Enabled(s, DeviceWrite(d)) && s.received <= |s.written|
    ensures var t := Apply(s, DeviceWrite(d));
            t.received <= |t.written| && QueueStep(s.n, QueueOf(s), Observe(s, DeviceWrite(d)), QueueOf(t))
  {
    hide Slot;
    assert (s.written + [d])[s.received..] == s.written[s.received..] + [d];
  }

  lemma PeekRefinesQueue(s: State)
    requires Inv(s) && Enabled(s, GetPeek) && s.received <= |s.written|
    ensures var t := Apply(s, GetPeek);
            t.received <= |t.written| && QueueStep(s.n, QueueOf(s), Observe(s, GetPeek), QueueOf(t))
  {
    hide Slot, Contents, ReleaseMap, CountTrue, Releaser, Acknowledged, Indices;
    PeekFindsExactlyWhenNonEmpty(s);
  }

  lemma ReleaseRefinesQueue(s: State, a: Action)
    requires Shaped(s) && Enabled(s, a) && (a.GetStart? || a.ReleaseMark? || a.ReleaseStep?)
    requires s.received <= |s.written|
    ensures var t := Apply(s, a);
            t.received <= |t.written| && QueueStep(s.n, QueueOf(s), Observe(s, a), QueueOf(t))
  {
    hide Slot, StepRelease;
    if a.ReleaseStep? {
      StepReleaseKeeps(s);
    }
  }

  lemma InvOrdersCounters(s: State)
    requires Inv(s)
    ensures Shaped(s) && s.received <= |s.written|
  {
    hide Slot, Contents, ReleaseMap, CountTrue, Releaser, Acknowledged, Indices;
  }

  lemma StepRefinesQueue(s: State, a: Action)
    requires Inv(s) && Enabled(s, a)
    ensures var t := Apply(s, a); Inv(t) && t.n == s.n && t.received <= |t.written|
    ensures QueueStep(s.n, QueueOf(s), Observe(s, a), QueueOf(Apply(s, a)))
  {
    hide *;
    StepInv(s, a);
    InvOrdersCounters(s);
    InvOrdersCounters(Apply(s, a));
    match a
    case DeviceWrite(d) => WriteRefinesQueue(s, d);
    case GetPeek => PeekRefinesQueue(s);
    case GetTake => TakeRefinesQueue(s);
    case _ => ReleaseRefinesQueue(s, a);
  }

  // Every interleaving of device, receiver and releasers behaves like one unbounded queue.
  lemma {:induction false} RunRefinesQueue(s: State, run: seq<Action>)
    requires Inv(s) && Legal(s, run)
    ensures Run(s, run).received <= |Run(s, run).written|
    ensures QueueRun(s.n, QueueOf(s), Trace(s, run), QueueOf(Run(s, run)))
    decreases run
  {
    if run == [] {
      assert s.received <= |s.written|;
    } else {
      hide Inv, Apply, Observe, QueueStep, QueueOf, Enabled, Shaped;
      var t := Apply(s, run[0]);
      StepRefinesQueue(s, run[0]);
      RunRefinesQueue(t, run[1..]);
      var os := Trace(s, run);
      assert os[0] == Observe(s, run[0]) && os[1..] == Trace(t, run[1..]);
      assert QueueStep(s.n, QueueOf(s), os[0], QueueOf(t)) && QueueRun(s.n, QueueOf(t), os[1..], QueueOf(Run(s, run)));
    }
  }

  ghost function Pushes(os: seq<Observation>): seq<Descriptor> {
    if os == [] then [] else (if os[0].Pushed? then [os[0].descriptor] else []) + Pushes(os[1..])
  }

  ghost function Deliveries(os: seq<Observation>): seq<(nat, Descriptor)> {
    if os == [] then []
    else (if os[0].Delivered? then [(os[0].reference, os[0].report)] else []) + Deliveries(os[1..])
  }

  lemma {:induction false} QueueDeliversInOrder(n: nat, q: Queue, os: seq<Observation>, r: Queue)
    requires 0 < n && QueueRun(n, q, os, r)
    ensures |Deliveries(os)| <= |q.items + Pushes(os)|
    ensures forall k :: 0 <= k < |Deliveries(os)| ==>
              Deliveries(os)[k] == (Slot(q.taken + k, n), (q.items + Pushes(os))[k])
    decreases os
  {
    if os != [] {
      var m :| QueueStep(n, q, os[0], m) && QueueRun(n, m, os[1..], r);
      QueueDeliversInOrder(n, m, os[1..], r);
      var all := q.items + Pushes(os);
      var rest := m.items + Pushes(os[1..]);
      var ds := Deliveries(os);
      if os[0].Delivered? {
        assert all == [q.items[0]] + rest;
        forall k | 0 <= k < |ds|
          ensures ds[k] == (Slot(q.taken + k, n), all[k])
        {
          if k > 0 {
            assert ds[k] == Deliveries(os[1..])[k - 1];
            assert m.taken + (k - 1) == q.taken + k;
          }
        }
      } else {
        assert all == rest && ds == Deliveries(os[1..]);
      }
    }
  }

  // The k-th successful getNextEvent returns the k-th descriptor the device wrote, under reference k mod n.
  lemma KthDeliveryIsKthWrite(n: nat, eventPointer: uint64, run: seq<Action>, k: nat)
    requires 0 < n && n * DESCRIPTOR_BYTES < TWO_64 && Legal(Initial(n, eventPointer), run)
    requires k < |Deliveries(Trace(Initial(n, eventPointer), run))|
    ensures var os := Trace(Initial(n, eventPointer), run);
            k < |Pushes(os)| && Deliveries(os)[k] == (k % n, Pushes(os)[k])
  {
    hide Inv, Slot, Legal, Run, Trace, QueueRun, Pushes, Deliveries;
    var s := Initial(n, eventPointer);
    InitialInv(n, eventPointer);
    RunRefinesQueue(s, run);
    QueueDeliversInOrder(n, QueueOf(s), Trace(s, run), QueueOf(Run(s, run)));
    assert QueueOf(s).items + Pushes(Trace(s, run)) == Pushes(Trace(s, run));
    SlotIsRemainder(k, n);
  }

  // -- A release comes to an end -----------------------------------------------------------------------------------

  function Rank(p: ReleasePhase): nat {
    match p
    case ReleaseIdle => 0
    case Syncing(_) => 1
    case Storing(_) => 2
    case Clearing(_, _, wrapped, _) => if wrapped then 5 else 3
    case Draining(_, _, _) => 4
    case Marked => 6
  }

  function Left(p: ReleasePhase): nat {
    if p.Clearing? then p.left else 0
  }

  // The set entries of the release map bound the loop, even when every entry is set.
  lemma ReleaseProgress(s: State)
    requires Shaped(s) && !s.releaser.ReleaseIdle?
    ensures var t := StepRelease(s);
            || CountTrue(t.pending) < CountTrue(s.pending)
            || (t.pending == s.pending && Rank(t.releaser) < Rank(s.releaser))
            || (t.pending == s.pending && Rank(t.releaser) == Rank(s.releaser) && Left(t.releaser) < Left(s.releaser))
  {
    if s.releaser.Draining? && s.pending[s.releaseIndex] {
      CountUpdate(s.pending, s.releaseIndex, false);
    }
  }

  // Let the holder of the release mutex run to its end without interruption.
  ghost function Finish(s: State): (t: State)
    requires Inv(s)
    ensures Inv(t) && t.releaser.ReleaseIdle?
    ensures t.n == s.n && t.initial == s.initial && t.written == s.written && t.received == s.received
    ensures t.released == s.released && t.receiveIndex == s.receiveIndex
    decreases CountTrue(s.pending), Rank(s.releaser), Left(s.releaser)
  {
    hide Inv, Slot, StepRelease;
    if s.releaser.ReleaseIdle? then s
    else
      InvIsShaped(s);
      ReleaseStepInv(s);
      ReleaseProgress(s);
      StepReleaseKeeps(s);
      Finish(StepRelease(s))
  }

  // -- Capacity ----------------------------------------------------------------------------------------------------

  // The ring takes n - 1 events; the device is free to write again as soon as one of them is acknowledged.
  lemma DeviceStallsExactlyWhenFull(s: State, d: Descriptor)
    requires Inv(s) && d.reportedSize != 0
    ensures Enabled(s, DeviceWrite(d)) <==> |s.written| - s.acknowledged < s.n - 1
  {
    DeviceRoom(s);
  }
}
