/** A window of a circular buffer as a scatter-gather list (buffer::composeSglistFromBufferSegment). */
module Windows {
  import opened Options
  import opened Words
  import opened Pages
  import opened Remainders
  import opened ScatterGather
  import opened Slots

  // The length of the next entry of the window: to the next page boundary when off one, else to the end of the
  // segment, within 32 bits, and no longer than asked for.
  function EntryLength(location: Location, remaining: nat, page: PageSize): (n: uint64)
    ensures 0 < location.rest && 0 < remaining ==> 0 < n <= remaining
  {
    var toBoundary := if location.address % page != 0 then page - location.address % page else location.rest;
    var within32 := if toBoundary >= TWO_32 then TWO_32 - page else toBoundary;
    if within32 >= remaining then remaining else within32
  }

  function NextOffset(offset: nat, n: nat, size: nat): nat {
    if offset + n == size then 0 else offset + n
  }

  // The list, and whether the whole window was found. A buffer of `size` bytes wraps at `size`.
  function Compose(list: seq<Segment>, size: nat, offset: nat, remaining: nat, page: PageSize): (bool, seq<Segment>)
    decreases remaining
  {
    if remaining == 0 then (true, [])
    else
      var found := Locate(list, offset);
      if found.None? then (false, [])
      else
        LocateIs(list, offset);
        var n := EntryLength(found.value, remaining, page);
        var (ok, rest) := Compose(list, size, NextOffset(offset, n, size), remaining - n, page);
        (ok, [Segment(found.value.address, n)] + rest)
  }

  lemma ComposeNothing(list: seq<Segment>, size: nat, offset: nat, remaining: nat, page: PageSize)
    ensures Compose(list, size, offset, 0, page) == (true, [])
    ensures var entries := Compose(list, size, offset, remaining, page).1; [] + entries == entries
  {
  }

  lemma NextOffsetIs(offset: nat, n: nat, size: nat)
    ensures NextOffset(offset, n, size) == if offset + n == size then 0 else offset + n
  {
  }

  lemma ComposeStep(list: seq<Segment>, size: nat, offset: nat, remaining: nat, page: PageSize, before: seq<Segment>)
    requires 0 < remaining
    ensures var (ok, entries) := Compose(list, size, offset, remaining, page);
            match Locate(list, offset)
            case None => !ok && before + entries == before
            case Some(location) =>
              var n := EntryLength(location, remaining, page);
              0 < n <= remaining &&
              var (ok', rest) := Compose(list, size, NextOffset(offset, n, size), remaining - n, page);
              ok == ok' && before + entries == (before + [Segment(location.address, n)]) + rest
  {
    LocateIs(list, offset);
    if Locate(list, offset).Some? {
      var location := Locate(list, offset).value;
      var n := EntryLength(location, remaining, page);
      var (ok, rest) := Compose(list, size, NextOffset(offset, n, size), remaining - n, page);
      assert before + ([Segment(location.address, n)] + rest) == (before + [Segment(location.address, n)]) + rest;
    }
  }

  // Page-aligned segments that fill a buffer of `size` bytes.
  ghost predicate PageBacked(list: seq<Segment>, size: nat, page: PageSize) {
    && Total(list) == size
    && forall e :: e in list ==> Aligned(e.pointer, page) && Aligned(e.length, page)
  }

  lemma {:induction false} BytesFollowPages(list: seq<Segment>, size: nat, offset: nat, page: PageSize)
    requires PageBacked(list, size, page) && offset < size
    ensures |Bytes(list)| == size && Bytes(list)[offset] % page == offset % page
  {
    hide Aligned;
    BytesTotal(list);
    var s, rest := list[0], list[1..];
    assert s in list && forall e :: e in rest ==> e in list;
    if offset < s.length {
      assert Bytes(list)[offset] == Wrap(s.pointer + offset);
      WrapKeepsRemainder(s.pointer + offset, page);
      AddAligned(offset, s.pointer, page);
    } else {
      BytesFollowPages(rest, Total(rest), offset - s.length, page);
      SubAligned(offset, s.length, page);
    }
  }

  lemma {:induction false} SegmentEndsAreAligned(list: seq<Segment>, size: nat, i: nat, page: PageSize)
    requires PageBacked(list, size, page) && i < |list|
    ensures Aligned(SegmentEnd(list, i), page)
  {
    SegmentEnds(list, i);
    var s, rest := list[0], list[1..];
    assert s in list && forall e :: e in rest ==> e in list;
    if i > 0 {
      SegmentEndsAreAligned(rest, Total(rest), i - 1, page);
      AddAligned(s.length, SegmentEnd(rest, i - 1), page);
    }
  }

  // A segment ends on a page boundary, or one byte behind one.
  ghost predicate EndsAtPage(s: Segment, page: PageSize) {
    0 < s.length ==> Aligned(s.pointer + s.length, page) || Aligned(s.pointer + s.length - 1, page)
  }

  ghost predicate AllEndAtPage(list: seq<Segment>, page: PageSize) {
    forall e :: e in list ==> EndsAtPage(e, page)
  }

  lemma PageBackedEndsAtPage(list: seq<Segment>, size: nat, page: PageSize)
    requires PageBacked(list, size, page)
    ensures AllEndAtPage(list, page)
  {
    forall e | e in list
      ensures EndsAtPage(e, page)
    {
      AddAligned(e.pointer, e.length, page);
    }
  }

  // The segment that a located byte lies in, and how far behind its start.
  lemma {:induction false} LocatedIn(list: seq<Segment>, offset: nat, reference: nat) returns (s: Segment, d: nat)
    requires reference <= offset && LocateFrom(list, offset, reference).Some?
    ensures s in list && d < s.length
    ensures LocateFrom(list, offset, reference).value == Location(Wrap(s.pointer + d), s.length - d)
  {
    hide Wrap;
    if offset < reference + list[0].length {
      s, d := list[0], offset - reference;
    } else {
      s, d := LocatedIn(list[1..], offset, reference + list[0].length);
    }
  }

  lemma LocationRemainder(s: Segment, d: nat, page: PageSize)
    ensures Wrap(s.pointer + d) % page == (s.pointer + d) % page
  {
    WrapKeepsRemainder(s.pointer + d, page);
  }

  // Up to the next page boundary, a byte off one stays inside a segment that ends at a page.
  lemma BoundaryIsInSegment(s: Segment, d: nat, page: PageSize)
    requires d < s.length && EndsAtPage(s, page) && (s.pointer + d) % page != 0
    ensures page - (s.pointer + d) % page <= s.length - d
  {
    var x, rest := s.pointer + d, s.length - d;
    if Aligned(x + rest, page) {
      BoundaryDistance(x, rest, page);
    } else {
      assert Aligned(x + (rest - 1), page);
      BoundaryDistance(x, rest - 1, page);
    }
  }

  // So no entry runs over the end of its segment.
  lemma EntryStaysInSegment(list: seq<Segment>, offset: nat, remaining: nat, page: PageSize)
    requires AllEndAtPage(list, page) && offset < Total(list) && 0 < remaining
    ensures Locate(list, offset).Some?
    ensures var l := Locate(list, offset).value;
            var n := EntryLength(l, remaining, page);
            0 < n <= remaining && n < TWO_32 && n <= l.rest && offset + l.rest <= Total(list)
  {
    hide Wrap, LocateFrom, Total, Aligned;
    LocateIs(list, offset);
    var s, d := LocatedIn(list, offset, 0);
    LocationRemainder(s, d, page);
    if (s.pointer + d) % page != 0 {
      BoundaryIsInSegment(s, d, page);
    }
  }

  lemma LocatedPage(list: seq<Segment>, size: nat, offset: nat, page: PageSize)
    requires PageBacked(list, size, page) && offset < size
    ensures Locate(list, offset).Some?
    ensures var l := Locate(list, offset).value;
            0 < l.rest && l.address % page == offset % page && Aligned(offset + l.rest, page)
  {
    hide LocateFrom, Wrap, SegmentEnd;
    LocateIs(list, offset);
    BytesFollowPages(list, size, offset, page);
    var l := Locate(list, offset).value;
    var i :| 0 <= i < |list| && SegmentEnd(list, i) == offset + l.rest;
    SegmentEndsAreAligned(list, size, i, page);
  }

  // On whole pages an entry ends on a page boundary or with the window.
  lemma EntryEndsAtPage(offset: nat, l: Location, remaining: nat, page: PageSize)
    requires 0 < l.rest && 0 < remaining
    requires l.address % page == offset % page && Aligned(offset + l.rest, page)
    ensures var n := EntryLength(l, remaining, page);
            && (offset % page != 0 ==> n <= page - offset % page)
            && (n < remaining ==> Aligned(offset + n, page))
  {
    if offset % page != 0 {
      BoundaryDistance(offset, l.rest, page);
      NextBoundary(offset, page);
    } else {
      PageMultiples(page);
      AddAligned(offset, TWO_32 - page, page);
    }
  }

  // The bytes at offset, offset + 1, ... of a circular buffer.
  ghost function Window(bytes: seq<int>, offset: nat, n: nat): (w: seq<int>)
    requires offset < |bytes|
    ensures |w| == n
  {
    seq(n, j requires 0 <= j < n => bytes[Slot(offset + j, |bytes|)])
  }

  lemma WindowSplit(bytes: seq<int>, offset: nat, m: nat, rest: nat)
    requires offset < |bytes| && offset + m <= |bytes|
    ensures Window(bytes, offset, m + rest)
         == bytes[offset..offset + m] + Window(bytes, NextOffset(offset, m, |bytes|), rest)
  {
    var size, next := |bytes|, NextOffset(offset, m, |bytes|);
    var whole, tail := Window(bytes, offset, m + rest), Window(bytes, next, rest);
    forall j | 0 <= j < m + rest
      ensures whole[j] == if j < m then bytes[offset + j] else tail[j - m]
    {
      if j < m {
        SlotSmall(offset + j, size);
      } else if offset + m == size {
        SlotPeriod(j - m, size);
      }
    }
  }

  // So an entry denotes the next bytes of the buffer.
  lemma EntryBytes(list: seq<Segment>, offset: nat, n: nat)
    requires Locate(list, offset).Some? && n <= Locate(list, offset).value.rest
    ensures offset + n <= |Bytes(list)|
    ensures Bytes(list)[offset..offset + n] == Span(Locate(list, offset).value.address, n)
  {
    LocateIs(list, offset);
    var l := Locate(list, offset).value;
    SpanSplit(l.address, n, l.rest - n);
    assert Bytes(list)[offset..offset + n] == Bytes(list)[offset..offset + l.rest][..n];
  }

  // Only the first entry may start off a page boundary, and then it stays within that page. Every entry fits the
  // device's 32-bit length register.
  ghost predicate RespectsPages(entries: seq<Segment>, page: PageSize) {
    && Positive(entries) && Shorter(entries, TWO_32)
    && (forall i :: 0 < i < |entries| ==> Aligned(entries[i].pointer, page))
    && (entries != [] && !Aligned(entries[0].pointer, page) ==>
          entries[0].length <= page - entries[0].pointer % page)
  }

  // What composing promises: the entries are exactly the circular window.
  ghost predicate IsWindow(list: seq<Segment>, size: nat, offset: nat, length: nat, page: PageSize) {
    && offset < |Bytes(list)| == size
    && var (ok, entries) := Compose(list, size, offset, length, page);
       ok && Bytes(entries) == Window(Bytes(list), offset, length)
  }

  // It keeps the promise for every offset below the size and every length when all segments end at a page.
  lemma {:induction false} ComposeIsWindow(list: seq<Segment>, size: nat, offset: nat, remaining: nat, page: PageSize)
    requires Total(list) == size && AllEndAtPage(list, page) && offset < size
    ensures IsWindow(list, size, offset, remaining, page)
    decreases remaining
  {
    hide EntryLength, Locate, AllEndAtPage, Total;
    BytesTotal(list);
    if remaining > 0 {
      EntryStaysInSegment(list, offset, remaining, page);
      var l := Locate(list, offset).value;
      var n := EntryLength(l, remaining, page);
      EntryBytes(list, offset, n);
      var next := NextOffset(offset, n, size);
      ComposeIsWindow(list, size, next, remaining - n, page);
      WindowSplit(Bytes(list), offset, n, remaining - n);
    }
  }

  lemma {:induction false} ComposeRespectsPages(list: seq<Segment>, size: nat, offset: nat, remaining: nat,
                                                page: PageSize)
    requires PageBacked(list, size, page) && offset < size
    ensures RespectsPages(Compose(list, size, offset, remaining, page).1, page)
    ensures Compose(list, size, offset, remaining, page).1 != [] ==>
              Compose(list, size, offset, remaining, page).1[0].pointer % page == offset % page
    decreases remaining
  {
    hide EntryLength, Locate, PageBacked, Total;
    if remaining > 0 {
      PageBackedTotal(list, size, page);
      PageBackedEndsAtPage(list, size, page);
      EntryStaysInSegment(list, offset, remaining, page);
      LocatedPage(list, size, offset, page);
      var l := Locate(list, offset).value;
      EntryEndsAtPage(offset, l, remaining, page);
      var n := EntryLength(l, remaining, page);
      var next := NextOffset(offset, n, size);
      ComposeRespectsPages(list, size, next, remaining - n, page);
      RemainderUnique(0, 0, 0, page);
    }
  }

  lemma PageBackedTotal(list: seq<Segment>, size: nat, page: PageSize)
    requires PageBacked(list, size, page)
    ensures Total(list) == size
  {
  }

  // Where entry k of a composed list starts in the buffer.
  function StartOf(entries: seq<Segment>, offset: nat, size: nat, k: nat): nat
    requires k < |entries|
  {
    if k == 0 then offset else StartOf(entries[1..], NextOffset(offset, entries[0].length, size), size, k - 1)
  }

  // No entry but the last could have been longer: one off a page boundary ends at the next; any other has all that is
  // left of its segment, or a page less than 2^32 bytes if that is 2^32 bytes or more.
  lemma {:induction false} ComposeIsGreedy(list: seq<Segment>, size: nat, offset: nat, remaining: nat, page: PageSize,
                                           k: nat)
    requires k + 1 < |Compose(list, size, offset, remaining, page).1|
    ensures var entries := Compose(list, size, offset, remaining, page).1;
            var start := StartOf(entries, offset, size, k);
            && Locate(list, start).Some?
            && var l := Locate(list, start).value;
               && entries[k].pointer == l.address
               && entries[k].length == if l.address % page != 0 then page - l.address % page
                                       else if l.rest < 0x1_0000_0000 then l.rest
                                       else 0x1_0000_0000 - page
    decreases k
  {
    hide Locate, NextOffset;
    LocateIs(list, offset);
    var l := Locate(list, offset).value;
    var n := EntryLength(l, remaining, page);
    var next := NextOffset(offset, n, size);
    var entries := Compose(list, size, offset, remaining, page).1;
    var rest := Compose(list, size, next, remaining - n, page).1;
    assert entries == [Segment(l.address, n)] + rest;
    if k > 0 {
      ComposeIsGreedy(list, size, next, remaining - n, page, k - 1);
      assert entries[1..] == rest;
    }
  }

  // -- Where it does not ---------------------------------------------------------------------------------------------

  // No segment begins where one ends.
  ghost predicate Apart(list: seq<Segment>) {
    forall a, b :: a in list && b in list ==> Wrap(a.pointer + a.length) != b.pointer
  }

  lemma {:induction false} SegmentStart(list: seq<Segment>, i: nat)
    requires i < |list| && Positive(list)
    ensures SegmentEnd(list, i) - list[i].length < |Bytes(list)|
    ensures 0 <= SegmentEnd(list, i) - list[i].length
    ensures Bytes(list)[SegmentEnd(list, i) - list[i].length] == list[i].pointer
  {
    SegmentEnds(list, i);
    assert list[0] in list;
    if i == 0 {
      assert Span(list[0].pointer, list[0].length)[0] == Wrap(list[0].pointer + 0);
    } else {
      var rest := list[1..];
      assert Positive(rest) && rest[i - 1] == list[i];
      SegmentStart(rest, i - 1);
      assert Bytes(list)[list[0].length..] == Bytes(rest);
    }
  }

  // The last byte of a segment is located with one byte left.
  lemma {:induction false} LocateLast(list: seq<Segment>, i: nat, reference: nat)
    requires i < |list| && Positive(list)
    ensures SegmentEnd(list, i) > 0
    ensures LocateFrom(list, reference + SegmentEnd(list, i) - 1, reference)
         == Some(Location(Wrap(list[i].pointer + list[i].length - 1), 1))
  {
    hide Wrap;
    SegmentEnds(list, i);
    assert list[0] in list;
    if i > 0 {
      var rest := list[1..];
      assert Positive(rest) && rest[i - 1] == list[i];
      LocateLast(rest, i - 1, reference + list[0].length);
    }
  }

  // The segment after segment i, going around.
  function Follower(list: seq<Segment>, i: nat): (j: nat)
    requires i < |list|
    ensures j < |list|
  {
    if i + 1 < |list| then i + 1 else 0
  }

  // Where segment i ends, the next one starts; behind the last one, the buffer does.
  lemma {:induction false} EndsMeet(list: seq<Segment>, i: nat)
    requires i < |list|
    ensures SegmentEnd(list, i) <= Total(list)
    ensures if i + 1 < |list| then SegmentEnd(list, i + 1) == SegmentEnd(list, i) + list[i + 1].length
            else SegmentEnd(list, i) == Total(list)
  {
    hide SegmentEnd;
    SegmentEnds(list, i);
    if i + 1 < |list| {
      SegmentEnds(list, i + 1);
      if i == 0 {
        SegmentEnds(list[1..], 0);
      }
    }
    if i > 0 {
      EndsMeet(list[1..], i - 1);
    }
  }

  lemma FollowerStart(list: seq<Segment>, i: nat)
    requires i < |list| && Positive(list)
    ensures var j := Follower(list, i);
            && 0 < SegmentEnd(list, i) <= Total(list)
            && SegmentEnd(list, j) - list[j].length == Slot(SegmentEnd(list, i), Total(list))
  {
    hide SegmentEnd, Total, LocateFrom, Slot;
    LocateLast(list, i, 0);
    EndsMeet(list, i);
    var end := SegmentEnd(list, i);
    if i + 1 < |list| {
      EndsMeet(list, i + 1);
      assert list[i + 1] in list;
      SlotSmall(end, Total(list));
    } else {
      SegmentEnds(list, 0);
      SlotPeriod(0, end);
      SlotSmall(0, end);
    }
  }

  // The byte after the last one of segment i is the first one of the segment after it.
  lemma WindowOverEnd(list: seq<Segment>, i: nat)
    requires i < |list| && Positive(list)
    ensures 0 < SegmentEnd(list, i) <= |Bytes(list)|
    ensures Window(Bytes(list), SegmentEnd(list, i) - 1, 2)[1] == list[Follower(list, i)].pointer
  {
    hide Bytes, Wrap, Total, SegmentEnd, Slot, Follower;
    BytesTotal(list);
    FollowerStart(list, i);
    SegmentStart(list, Follower(list, i));
  }

  // Two bytes from the last one of a segment that ends elsewhere are composed into one entry over its end.
  lemma EntryOverEnd(list: seq<Segment>, size: nat, i: nat, page: PageSize)
    requires i < |list| && Positive(list) && !EndsAtPage(list[i], page)
    ensures SegmentEnd(list, i) > 0
    ensures Compose(list, size, SegmentEnd(list, i) - 1, 2, page)
         == (true, [Segment(Wrap(list[i].pointer + list[i].length - 1), 2)])
  {
    hide LocateFrom, SegmentEnd, Wrap;
    var s := list[i];
    LocateLast(list, i, 0);
    LocationRemainder(s, s.length - 1, page);
    var offset, x := SegmentEnd(list, i) - 1, s.pointer + s.length - 1;
    if page - x % page == 1 {
      NextBoundary(x, page);
      assert false;
    }
    var l := Location(Wrap(x), 1);
    assert EntryLength(l, 2, page) == 2;
    ComposeStep(list, size, offset, 2, page, []);
    var entries := Compose(list, size, offset, 2, page).1;
    var rest := Compose(list, size, NextOffset(offset, 2, size), 0, page).1;
    assert [] + entries == entries && ([] + [Segment(l.address, 2)]) + rest == [Segment(l.address, 2)];
  }

  lemma EndIsOverrun(list: seq<Segment>, size: nat, i: nat, page: PageSize)
    requires Total(list) == size && Positive(list) && Apart(list)
    requires i < |list| && !EndsAtPage(list[i], page)
    ensures 0 < SegmentEnd(list, i) <= size && !IsWindow(list, size, SegmentEnd(list, i) - 1, 2, page)
  {
    hide Compose, SegmentEnd, EndsAtPage, Total, Window, Wrap;
    BytesTotal(list);
    WindowOverEnd(list, i);
    EntryOverEnd(list, size, i, page);
    var last := Wrap(list[i].pointer + list[i].length - 1);
    TwoBytes(last, list[i].pointer + list[i].length - 1);
    assert list[i] in list && list[Follower(list, i)] in list;
  }

  lemma TwoBytes(pointer: uint64, x: nat)
    requires pointer == Wrap(x)
    ensures |Bytes([Segment(pointer, 2)])| == 2 && Bytes([Segment(pointer, 2)])[1] == Wrap(x + 1)
  {
    var one := [Segment(pointer, 2)];
    assert one[1..] == [] && Bytes(one) == Span(pointer, 2) + [];
    assert Span(pointer, 2)[1] == Wrap(pointer + 1);
  }

  // Unless segments happen to continue each other physically, every window is composed right exactly when all
  // segments end at a page.
  lemma ComposeIsWindowExactlyWhen(list: seq<Segment>, size: nat, page: PageSize)
    requires Total(list) == size && Positive(list) && Apart(list)
    ensures AllEndAtPage(list, page)
       <==> forall offset: nat, length: nat :: offset < size ==> IsWindow(list, size, offset, length, page)
  {
    hide IsWindow, EndsAtPage, Total, Apart;
    if AllEndAtPage(list, page) {
      forall offset: nat, length: nat | offset < size
        ensures IsWindow(list, size, offset, length, page)
      {
        ComposeIsWindow(list, size, offset, length, page);
      }
    } else {
      var e :| e in list && !EndsAtPage(e, page);
      var i :| 0 <= i < |list| && list[i] == e;
      EndIsOverrun(list, size, i, page);
    }
  }

  // Outside the buffer nothing can be composed, however the segments lie.
  lemma ComposeFailsOutside(list: seq<Segment>, size: nat, offset: nat, remaining: nat, page: PageSize)
    requires Total(list) <= offset
    ensures Compose(list, size, offset, remaining, page) == (remaining == 0, [])
  {
    LocateIs(list, offset);
  }

  // A buffer whose size is not a multiple of the page, in one segment: a window over the wrap-around does not wrap.
  lemma PartialPageIsOverrun()
    ensures var list := [Segment(0x1000, 0x1800)];
            Compose(list, 0x1800, 0x17ff, 2, 4096) == (true, [Segment(0x27ff, 2)])
            && !IsWindow(list, 0x1800, 0x17ff, 2, 4096)
  {
    var list := [Segment(0x1000, 0x1800)];
    assert list[..1] == list && list[1..] == [];
    assert Total(list) == SegmentEnd(list, 0) == 0x1800;
    EntryOverEnd(list, 0x1800, 0, 4096);
    EndIsOverrun(list, 0x1800, 0, 4096);
  }
}
