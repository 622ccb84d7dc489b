/** What every step of the ring protocol keeps, whoever takes it. */
module RingInvariant {
  import opened Words
  import opened Slots
  import opened RingProtocol

  function CountTrue(p: seq<bool>): nat {
    if p == [] then 0 else CountTrue(p[..|p| - 1]) + if p[|p| - 1] then 1 else 0
  }

  lemma {:induction false} CountUpdate(p: seq<bool>, i: nat, b: bool)
    requires i < |p|
    ensures CountTrue(p[i := b]) + (if p[i] then 1 else 0) == CountTrue(p) + if b then 1 else 0
  {
    var m := |p| - 1;
    var q := p[i := b];
    if i == m {
      assert q[..m] == p[..m];
    } else {
      assert q[..m] == p[..m][i := b];
      CountUpdate(p[..m], i, b);
    }
  }

  lemma {:induction false} CountNone(p: seq<bool>)
    requires forall i :: 0 <= i < |p| ==> !p[i]
    ensures CountTrue(p) == 0
  {
    if p != [] {
      CountNone(p[..|p| - 1]);
    }
  }

  // The pointers that acknowledge the first k events.
  function PointersAfter(n: nat, initial: Pointers, written: seq<Descriptor>, k: nat): Pointers
    requires 0 < n && n * DESCRIPTOR_BYTES < TWO_64 && k <= |written|
  {
    if k == 0 then initial
    else Pointers(written[k - 1].offset, Slot(k - 1, n) * DESCRIPTOR_BYTES)
  }

  ghost predicate Counters(s: State) {
    0 < s.n && s.acknowledged <= s.cleared <= s.retired <= s.received <= |s.written| <= s.acknowledged + s.n - 1
  }

  // Written and not yet zeroed descriptors sit in their slots; every other slot is zero.
  ghost predicate Contents(n: nat, slots: seq<Descriptor>, written: seq<Descriptor>, cleared: nat)
    requires 0 < n == |slots|
  {
    && (forall k :: 0 <= k < |written| ==> written[k].reportedSize != 0)
    && (forall k {:trigger written[k]} :: cleared <= k < |written| ==> slots[Slot(k, n)] == written[k])
    && (forall k {:trigger Slot(k, n)} :: |written| <= k < cleared + n ==> slots[Slot(k, n)] == CLEARED)
  }

  // The release map marks exactly the events that were handed back and are not yet retired.
  ghost predicate ReleaseMap(n: nat, pending: seq<bool>, released: set<nat>, retired: nat, received: nat)
    requires 0 < n == |pending|
  {
    && (forall k {:trigger Slot(k, n)} :: retired <= k < retired + n ==> pending[Slot(k, n)] == (k in released))
    && (forall k :: 0 <= k < retired ==> k in released)
    && (forall k :: k in released ==> k < received)
  }

  ghost predicate Indices(s: State)
    requires Shaped(s)
  {
    && s.releaseIndex == Slot(s.retired, s.n)
    && s.receiveIndex == (if s.received == 0 then EVENT_INDEX_UNDEFINED else Slot(s.received - 1, s.n))
    && (s.getter.GetLooking? ==> s.getter.index == Slot(s.received, s.n))
    && (s.getter.GetFound? ==> s.getter.index == Slot(s.received, s.n) && s.received < |s.written|)
  }

  ghost predicate Acknowledged(s: State)
    requires Shaped(s) && Counters(s)
  {
    && s.initial.report == s.n * DESCRIPTOR_BYTES - DESCRIPTOR_BYTES
    && s.published == PointersAfter(s.n, s.initial, s.written, s.acknowledged)
  }

  ghost predicate Releaser(s: State)
    requires Shaped(s) && Counters(s)
  {
    match s.releaser
    case ReleaseIdle =>
      s.acknowledged == s.retired && !s.pending[s.releaseIndex]
    case Marked =>
      s.acknowledged == s.retired
    case Draining(start, count, last) =>
      && start == Slot(s.cleared, s.n)
      && count == s.retired - s.cleared
      && if s.acknowledged == s.retired then s.pending[s.releaseIndex]
         else last == PointersAfter(s.n, s.initial, s.written, s.retired)
    case Clearing(next, left, wrapped, last) =>
      && left == s.retired - s.cleared
      && (left > 0 ==> next == Slot(s.cleared, s.n))
      && s.acknowledged < s.retired && last == PointersAfter(s.n, s.initial, s.written, s.retired)
      && (!wrapped ==> !s.pending[s.releaseIndex])
    case Storing(last) =>
      && s.cleared == s.retired && s.acknowledged < s.retired
      && last == PointersAfter(s.n, s.initial, s.written, s.retired) && !s.pending[s.releaseIndex]
    case Syncing(last) =>
      && s.cleared == s.retired && s.acknowledged < s.retired
      && last == PointersAfter(s.n, s.initial, s.written, s.retired) && !s.pending[s.releaseIndex]
      && s.registers == StorePointers(last)
  }

  ghost predicate Inv(s: State) {
    && Shaped(s)
    && Counters(s)
    && Contents(s.n, s.slots, s.written, s.cleared)
    && ReleaseMap(s.n, s.pending, s.released, s.retired, s.received)
    && |s.released| == s.retired + CountTrue(s.pending)
    && Indices(s)
    && Acknowledged(s)
    && Releaser(s)
  }

  lemma InitialInv(n: nat, eventPointer: uint64)
    requires 0 < n && n * DESCRIPTOR_BYTES < TWO_64
    ensures Inv(Initial(n, eventPointer))
  {
    CountNone(seq(n, i => false));
    SlotSmall(0, n);
  }

  // The device stalls exactly when n - 1 events are not yet acknowledged.
  lemma DeviceRoom(s: State)
    requires Shaped(s) && Counters(s) && Acknowledged(s)
    ensures Slot(|s.written|, s.n) * DESCRIPTOR_BYTES != s.published.report
       <==> |s.written| < s.acknowledged + s.n - 1
  {
    var full := s.acknowledged + s.n - 1;
    assert s.published.report == Slot(full, s.n) * DESCRIPTOR_BYTES by {
      if s.acknowledged == 0 {
        SlotSmall(full, s.n);
      } else {
        SlotPeriod(s.acknowledged - 1, s.n);
      }
    }
    if |s.written| < full {
      SlotDistinct(|s.written|, full, s.n);
    }
  }

  lemma OtherSlots(base: nat, k: nat, n: nat)
    requires 0 < n && base <= k < base + n
    ensures forall j {:trigger Slot(j, n)} :: base <= j < base + n && j != k ==> Slot(j, n) != Slot(k, n)
  {
    forall j {:trigger Slot(j, n)} | base <= j < base + n && j != k
      ensures Slot(j, n) != Slot(k, n)
    {
      if j < k {
        SlotDistinct(j, k, n);
      } else {
        SlotDistinct(k, j, n);
      }
    }
  }

  lemma DeviceWriteInv(s: State, d: Descriptor)
    requires Inv(s) && Enabled(s, DeviceWrite(d))
    ensures Inv(Apply(s, DeviceWrite(d)))
  {
    hide Slot, ReleaseMap, CountTrue;
    DeviceRoom(s);
    OtherSlots(s.cleared, |s.written|, s.n);
  }

  lemma GetStartInv(s: State)
    requires Inv(s) && Enabled(s, GetStart)
    ensures Inv(Apply(s, GetStart))
  {
    hide Slot, Contents, ReleaseMap, CountTrue;
    if s.received > 0 {
      SlotStep(s.received - 1, s.n);
    } else {
      SlotSmall(0, s.n);
    }
  }

  lemma GetPeekInv(s: State)
    requires Inv(s) && Enabled(s, GetPeek)
    ensures Inv(Apply(s, GetPeek))
  {
    hide Slot, Contents, ReleaseMap, CountTrue;
    PeekFindsExactlyWhenNonEmpty(s);
  }

  lemma GetTakeInv(s: State)
    requires Inv(s) && Enabled(s, GetTake)
    ensures Inv(Apply(s, GetTake))
  {
    hide Slot, Contents, CountTrue;
  }

  // The receiver sees an empty slot exactly when nothing is left to receive.
  lemma PeekFindsExactlyWhenNonEmpty(s: State)
    requires Inv(s) && s.getter.GetLooking?
    ensures s.slots[s.getter.index].reportedSize == 0 <==> s.received == |s.written|
  {
    var k := s.received;
    assert s.getter.index == Slot(k, s.n);
    if k < |s.written| {
      assert s.slots[Slot(k, s.n)] == s.written[k];
    } else {
      assert s.slots[Slot(k, s.n)] == CLEARED;
    }
  }

  lemma ReleaseMarkInv(s: State, k: nat)
    requires Inv(s) && Enabled(s, ReleaseMark(k))
    ensures Inv(Apply(s, ReleaseMark(k)))
  {
    hide Slot, Contents;
    OtherSlots(s.retired, k, s.n);
    CountUpdate(s.pending, Slot(k, s.n), true);
  }

  lemma RetireMap(s: State)
    requires Inv(s) && s.releaser.Draining? && s.pending[s.releaseIndex]
    ensures var t := StepRelease(s);
            && Counters(t)
            && ReleaseMap(t.n, t.pending, t.released, t.retired, t.received)
            && CountTrue(t.pending) == CountTrue(s.pending) - 1
            && s.slots[s.releaseIndex] == s.written[s.retired]
  {
    hide Slot;
    assert s.releaseIndex == Slot(s.retired, s.n);
    assert s.retired in s.released;
    OtherSlots(s.retired, s.retired, s.n);
    SlotPeriod(s.retired, s.n);
    CountUpdate(s.pending, s.releaseIndex, false);
  }

  lemma RetireInv(s: State)
    requires Inv(s) && s.releaser.Draining? && s.pending[s.releaseIndex]
    ensures Inv(StepRelease(s))
  {
    hide Slot, Contents, ReleaseMap, CountTrue;
    var t := StepRelease(s);
    RetireMap(s);
    SlotStep(s.retired, s.n);
  }

  lemma DrainInv(s: State)
    requires Inv(s) && s.releaser.Draining?
    ensures Inv(StepRelease(s))
  {
    hide Slot, Contents, ReleaseMap, CountTrue;
    if s.pending[s.releaseIndex] {
      RetireInv(s);
    } else {
      var t := StepRelease(s);
      assert Contents(t.n, t.slots, t.written, t.cleared);
      assert ReleaseMap(t.n, t.pending, t.released, t.retired, t.received) && Releaser(t);
    }
  }

  lemma ClearOneContents(s: State)
    requires Inv(s) && s.releaser.Clearing? && s.releaser.left > 0
    ensures var t := StepRelease(s); Counters(t) && Contents(t.n, t.slots, t.written, t.cleared)
  {
    hide Slot;
    OtherSlots(s.cleared, s.cleared, s.n);
    SlotPeriod(s.cleared, s.n);
  }

  lemma ClearOneInv(s: State)
    requires Inv(s) && s.releaser.Clearing? && s.releaser.left > 0
    ensures Inv(StepRelease(s))
  {
    hide Slot, Contents, ReleaseMap, CountTrue;
    var t := StepRelease(s);
    ClearOneContents(s);
    SlotStep(s.cleared, s.n);
    assert Acknowledged(t);
  }

  lemma ClearEndInv(s: State)
    requires Inv(s) && s.releaser.Clearing? && s.releaser.left == 0
    ensures Inv(StepRelease(s))
  {
    hide Slot, Contents, ReleaseMap, CountTrue;
    var t := StepRelease(s);
    assert Contents(t.n, t.slots, t.written, t.cleared);
    assert ReleaseMap(t.n, t.pending, t.released, t.retired, t.received);
  }

  lemma MarkedInv(s: State)
    requires Inv(s) && s.releaser.Marked?
    ensures Inv(StepRelease(s))
  {
    hide Slot, Contents, ReleaseMap, CountTrue;
    var t := StepRelease(s);
    assert Contents(t.n, t.slots, t.written, t.cleared);
    assert ReleaseMap(t.n, t.pending, t.released, t.retired, t.received);
  }

  lemma StoringInv(s: State)
    requires Inv(s) && s.releaser.Storing?
    ensures Inv(StepRelease(s))
  {
    hide Slot, Contents, ReleaseMap, CountTrue;
  }

  lemma SyncingInv(s: State)
    requires Inv(s) && s.releaser.Syncing?
    ensures Inv(StepRelease(s))
  {
    hide Slot, Contents, ReleaseMap, CountTrue;
  }

  lemma ReleaseStepInv(s: State)
    requires Inv(s) && !s.releaser.ReleaseIdle?
    ensures Inv(StepRelease(s))
  {
    match s.releaser
    case Marked => MarkedInv(s);
    case Draining(_, _, _) => DrainInv(s);
    case Clearing(_, left, _, _) => if left > 0 { ClearOneInv(s); } else { ClearEndInv(s); }
    case Storing(_) => StoringInv(s);
    case Syncing(_) => SyncingInv(s);
  }

  lemma StepReleaseKeeps(s: State)
    requires Shaped(s) && !s.releaser.ReleaseIdle?
    ensures var t := StepRelease(s);
            && t.n == s.n && t.initial == s.initial && t.written == s.written && t.received == s.received
            && t.released == s.released && t.receiveIndex == s.receiveIndex
  {
    hide Slot;
  }

  lemma InvIsShaped(s: State)
    requires Inv(s)
    ensures Shaped(s)
  {
  }

  lemma StepInv(s: State, a: Action)
    requires Inv(s) && Enabled(s, a)
    ensures Inv(Apply(s, a)) && Apply(s, a).n == s.n && Apply(s, a).initial == s.initial
  {
    hide Inv, Slot, CountTrue, NextToReceive;
    InvIsShaped(s);
    match a
    case DeviceWrite(d) => DeviceWriteInv(s, d);
    case GetStart => GetStartInv(s);
    case GetPeek => GetPeekInv(s);
    case GetTake => GetTakeInv(s);
    case ReleaseMark(k) => ReleaseMarkInv(s, k);
    case ReleaseStep =>
      ReleaseStepInv(s);
      StepReleaseKeeps(s);
  }
}
