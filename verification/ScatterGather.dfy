/**
 The scatter-gather lists of a DMA buffer and the one thing they all mean: which physical address each byte of the
 buffer has. Addresses are 64-bit words and wrap like them.
 */
module ScatterGather {
  import opened Words
  import opened Pages
  import opened Options
  import opened Remainders

  datatype Segment = Segment(pointer: uint64, length: uint64)

  // An entry of the kernel's table; its length field has 32 bits.
  type RawSegment = s: Segment | s.length < TWO_32 witness Segment(0, 0)

  function Wrap(x: nat): uint64 {
    x % TWO_64
  }

  // The addresses of n consecutive bytes from p.
  ghost function Span(p: nat, n: nat): (r: seq<int>)
    ensures |r| == n
  {
    seq(n, j requires 0 <= j < n => Wrap(p + j))
  }

  // The address of every byte of the list, in order.
  ghost function Bytes(list: seq<Segment>): seq<int> {
    if list == [] then [] else Span(list[0].pointer, list[0].length) + Bytes(list[1..])
  }

  function Total(list: seq<Segment>): nat {
    if list == [] then 0 else list[0].length + Total(list[1..])
  }

  lemma {:induction false} BytesTotal(list: seq<Segment>)
    ensures |Bytes(list)| == Total(list)
  {
    if list != [] {
      BytesTotal(list[1..]);
    }
  }

  lemma {:induction false} BytesAppend(a: seq<Segment>, b: seq<Segment>)
    ensures Bytes(a + b) == Bytes(a) + Bytes(b) && Total(a + b) == Total(a) + Total(b)
  {
    if a == [] {
      assert a + b == b;
    } else {
      assert (a + b)[1..] == a[1..] + b;
      BytesAppend(a[1..], b);
    }
  }

  // Byte k of a segment is at its address plus k, going around at 2^64, and comes behind the bytes of all segments
  // before it.
  lemma BytesAt(front: seq<Segment>, s: Segment, back: seq<Segment>, k: nat)
    requires k < s.length
    ensures Total(front) + k < |Bytes(front + [s] + back)|
    ensures Bytes(front + [s] + back)[Total(front) + k] == (s.pointer + k) % 0x1_0000_0000_0000_0000
  {
    hide Wrap, Span, Total;
    BytesTotal(front);
    BytesAppend(front + [s], back);
    BytesAppend(front, [s]);
    assert Bytes([s]) == Span(s.pointer, s.length) + Bytes([]);
    hide Bytes;
    SpanAt(s.pointer, s.length, k);
    var own := Bytes(front) + Span(s.pointer, s.length);
    assert own[|Bytes(front)| + k] == Span(s.pointer, s.length)[k];
  }

  lemma SpanAt(p: nat, n: nat, k: nat)
    requires k < n
    ensures Span(p, n)[k] == (p + k) % 0x1_0000_0000_0000_0000
  {
    assert Span(p, n)[k] == Wrap(p + k);
  }

  lemma WrapAdds(x: nat, y: nat)
    ensures Wrap(Wrap(x) + y) == Wrap(x + y)
  {
  }

  lemma SpanSplit(p: nat, m: nat, n: nat)
    ensures Span(p, m + n) == Span(p, m) + Span(Wrap(p + m), n)
  {
    hide Wrap;
    var whole, tail := Span(p, m + n), Span(Wrap(p + m), n);
    forall j | m <= j < m + n
      ensures whole[j] == tail[j - m]
    {
      WrapAdds(p + m, j - m);
      assert p + m + (j - m) == p + j;
    }
    assert whole == Span(p, m) + tail;
  }

  // -- Coalescing (buffer::initializeSglist) -----------------------------------------------------------------------

  predicate Adjacent(a: Segment, b: Segment) {
    Wrap(a.pointer + a.length) == b.pointer
  }

  // The guard of the inner loop: the length it adds to the merged entry so far is that of the entry merged last, not
  // that of the entry about to be merged.
  predicate Merges(entry: Segment, last: RawSegment, next: RawSegment) {
    Adjacent(entry, next) && entry.length + last.length < 0xffff_ffff
  }

  function CoalesceFrom(entry: Segment, last: RawSegment, rest: seq<RawSegment>): seq<Segment>
    requires entry.length < 2 * TWO_32
    decreases rest, 1
  {
    if rest != [] && Merges(entry, last, rest[0]) then
      CoalesceFrom(Segment(entry.pointer, entry.length + rest[0].length), rest[0], rest[1..])
    else
      [entry] + Coalesce(rest)
  }

  function Coalesce(raw: seq<RawSegment>): seq<Segment>
    decreases raw, 0
  {
    if raw == [] then [] else CoalesceFrom(raw[0], raw[0], raw[1..])
  }

  lemma CoalesceEmpty(raw: seq<RawSegment>)
    ensures Coalesce(raw[|raw|..]) == []
  {
  }

  lemma CoalesceUnfold(raw: seq<RawSegment>, i: nat)
    requires i < |raw|
    ensures Coalesce(raw[i..]) == CoalesceFrom(raw[i], raw[i], raw[i + 1..])
  {
    assert raw[i..][1..] == raw[i + 1..];
  }

  lemma CoalesceFromIs(entry: Segment, last: RawSegment, rest: seq<RawSegment>)
    requires entry.length < 2 * TWO_32
    ensures CoalesceFrom(entry, last, rest)
         == if rest != [] && Merges(entry, last, rest[0])
            then CoalesceFrom(Segment(entry.pointer, entry.length + rest[0].length), rest[0], rest[1..])
            else [entry] + Coalesce(rest)
  {
    hide Coalesce, Wrap, Adjacent;
  }

  lemma CoalesceFromUnfold(entry: Segment, raw: seq<RawSegment>, i: nat)
    requires i < |raw| && entry.length < 2 * TWO_32
    ensures CoalesceFrom(entry, raw[i], raw[i + 1..])
         == if i + 1 < |raw| && Merges(entry, raw[i], raw[i + 1])
            then CoalesceFrom(Segment(entry.pointer, entry.length + raw[i + 1].length), raw[i + 1], raw[i + 2..])
            else [entry] + Coalesce(raw[i + 1..])
  {
    hide *;
    CoalesceFromIs(entry, raw[i], raw[i + 1..]);
    if i + 1 < |raw| {
      assert raw[i + 1..][0] == raw[i + 1] && raw[i + 1..][1..] == raw[i + 2..];
    }
  }

  lemma {:induction false} CoalesceFromKeepsBytes(entry: Segment, last: RawSegment, rest: seq<RawSegment>)
    requires entry.length < 2 * TWO_32
    ensures Bytes(CoalesceFrom(entry, last, rest)) == Span(entry.pointer, entry.length) + Bytes(rest)
    decreases rest, 1
  {
    if rest != [] && Merges(entry, last, rest[0]) {
      CoalesceFromKeepsBytes(Segment(entry.pointer, entry.length + rest[0].length), rest[0], rest[1..]);
      SpanSplit(entry.pointer, entry.length, rest[0].length);
    } else {
      CoalesceKeepsBytes(rest);
    }
  }

  lemma {:induction false} CoalesceKeepsBytes(raw: seq<RawSegment>)
    ensures Bytes(Coalesce(raw)) == Bytes(raw)
    decreases raw, 0
  {
    if raw != [] {
      CoalesceFromKeepsBytes(raw[0], raw[0], raw[1..]);
    }
  }

  // Lengths do not grow along a run of adjacent entries.
  ghost predicate NonIncreasing(raw: seq<RawSegment>) {
    forall i :: 0 <= i < |raw| - 1 && Adjacent(raw[i], raw[i + 1]) ==> raw[i + 1].length <= raw[i].length
  }

  ghost predicate Shorter(list: seq<Segment>, bound: nat) {
    forall e :: e in list ==> e.length < bound
  }

  ghost predicate Positive(list: seq<Segment>) {
    forall e :: e in list ==> 0 < e.length
  }

  // The merged entry ends where the entry merged last ends.
  ghost predicate SameEnd(entry: Segment, last: RawSegment) {
    Wrap(entry.pointer + entry.length) == Wrap(last.pointer + last.length)
  }

  lemma {:induction false} CoalesceFromBounds(entry: Segment, last: RawSegment, rest: seq<RawSegment>)
    requires entry.length < 2 * TWO_32
    ensures Shorter(CoalesceFrom(entry, last, rest), 2 * TWO_32)
    ensures 0 < entry.length && Positive(rest) ==> Positive(CoalesceFrom(entry, last, rest))
    ensures |CoalesceFrom(entry, last, rest)| <= 1 + |rest|
    decreases rest, 1
  {
    if rest != [] && Merges(entry, last, rest[0]) {
      CoalesceFromBounds(Segment(entry.pointer, entry.length + rest[0].length), rest[0], rest[1..]);
    } else {
      CoalesceBounds(rest);
    }
  }

  // A merged entry stays below 2^33.
  lemma {:induction false} CoalesceBounds(raw: seq<RawSegment>)
    ensures Shorter(Coalesce(raw), 2 * TWO_32)
    ensures Positive(raw) ==> Positive(Coalesce(raw))
    ensures |Coalesce(raw)| <= |raw|
    decreases raw, 0
  {
    if raw != [] {
      CoalesceFromBounds(raw[0], raw[0], raw[1..]);
    }
  }

  lemma NonIncreasingRest(raw: seq<RawSegment>)
    requires raw != [] && NonIncreasing(raw)
    ensures NonIncreasing(raw[1..])
  {
    forall i | 0 <= i < |raw[1..]| - 1 && Adjacent(raw[1..][i], raw[1..][i + 1])
      ensures raw[1..][i + 1].length <= raw[1..][i].length
    {
      assert Adjacent(raw[i + 1], raw[i + 2]);
    }
  }

  // At every merge that the guard lets through, the length it should have added keeps the sum below 2^32 as well.
  ghost predicate GuardSufficesFrom(entry: Segment, last: RawSegment, rest: seq<RawSegment>)
    requires entry.length < 2 * TWO_32
    decreases rest, 1
  {
    if rest != [] && Merges(entry, last, rest[0]) then
      && entry.length + rest[0].length < TWO_32
      && GuardSufficesFrom(Segment(entry.pointer, entry.length + rest[0].length), rest[0], rest[1..])
    else GuardSuffices(rest)
  }

  ghost predicate GuardSuffices(raw: seq<RawSegment>)
    decreases raw, 0
  {
    raw != [] ==> GuardSufficesFrom(raw[0], raw[0], raw[1..])
  }

  lemma {:induction false} CoalesceFromFitsExactlyWhen(entry: Segment, last: RawSegment, rest: seq<RawSegment>)
    requires entry.length < 2 * TWO_32
    ensures Shorter(CoalesceFrom(entry, last, rest), TWO_32)
       <==> entry.length < TWO_32 && GuardSufficesFrom(entry, last, rest)
    decreases rest, 1
  {
    if rest != [] && Merges(entry, last, rest[0]) {
      CoalesceFromFitsExactlyWhen(Segment(entry.pointer, entry.length + rest[0].length), rest[0], rest[1..]);
    } else {
      CoalesceFitsExactlyWhen(rest);
      assert CoalesceFrom(entry, last, rest) == [entry] + Coalesce(rest);
    }
  }

  // The coalesced lengths have 32 bits, as the comment in the source promises, exactly when testing the wrong length
  // never lets a merge through that the right one would have stopped.
  lemma {:induction false} CoalesceFitsExactlyWhen(raw: seq<RawSegment>)
    ensures Shorter(Coalesce(raw), TWO_32) <==> GuardSuffices(raw)
    decreases raw, 0
  {
    if raw != [] {
      CoalesceFromFitsExactlyWhen(raw[0], raw[0], raw[1..]);
    }
  }

  lemma {:induction false} NonIncreasingSufficesFrom(entry: Segment, last: RawSegment, rest: seq<RawSegment>)
    requires entry.length < TWO_32 && SameEnd(entry, last) && NonIncreasing([last] + rest)
    ensures GuardSufficesFrom(entry, last, rest)
    decreases rest, 1
  {
    var all := [last] + rest;
    NonIncreasingRest(all);
    assert all[1..] == rest;
    if rest != [] && Merges(entry, last, rest[0]) {
      assert Adjacent(all[0], all[1]);
      assert rest == [rest[0]] + rest[1..];
      var merged := Segment(entry.pointer, entry.length + rest[0].length);
      MergedEnd(entry, rest[0]);
      hide NonIncreasing, Adjacent, SameEnd;
      NonIncreasingSufficesFrom(merged, rest[0], rest[1..]);
    } else {
      NonIncreasingSuffices(rest);
    }
  }

  lemma MergedEnd(entry: Segment, next: RawSegment)
    requires Adjacent(entry, next) && entry.length + next.length < TWO_32
    ensures SameEnd(Segment(entry.pointer, entry.length + next.length), next)
  {
  }

  lemma {:induction false} NonIncreasingSuffices(raw: seq<RawSegment>)
    requires NonIncreasing(raw)
    ensures GuardSuffices(raw)
    decreases raw, 0
  {
    if raw != [] {
      assert [raw[0]] + raw[1..] == raw;
      NonIncreasingSufficesFrom(raw[0], raw[0], raw[1..]);
    }
  }

  // So they have when lengths do not grow along adjacent entries.
  lemma CoalesceFits32(raw: seq<RawSegment>)
    requires NonIncreasing(raw)
    ensures Shorter(Coalesce(raw), TWO_32)
  {
    NonIncreasingSuffices(raw);
    CoalesceFitsExactlyWhen(raw);
  }

  // The bytes from the first entry on that are physically contiguous, as the raw table has them.
  function RunTotal(raw: seq<RawSegment>): nat {
    if raw == [] then 0
    else raw[0].length + if |raw| > 1 && Adjacent(raw[0], raw[1]) then RunTotal(raw[1..]) else 0
  }

  // No contiguous run of the raw table reaches 2^32 bytes.
  ghost predicate ShortRuns(raw: seq<RawSegment>) {
    forall i :: 0 <= i < |raw| ==> RunTotal(raw[i..]) < TWO_32
  }

  lemma ShortRunsRest(raw: seq<RawSegment>)
    requires raw != [] && ShortRuns(raw)
    ensures RunTotal(raw) < TWO_32 && ShortRuns(raw[1..])
  {
    hide RunTotal;
    assert raw[0..] == raw;
    forall i | 0 <= i < |raw[1..]|
      ensures RunTotal(raw[1..][i..]) < TWO_32
    {
      assert raw[1..][i..] == raw[i + 1..];
    }
  }

  lemma RunTotalStep(last: RawSegment, rest: seq<RawSegment>)
    ensures rest != [] && Adjacent(last, rest[0]) ==> RunTotal([last] + rest) == last.length + RunTotal(rest)
    ensures rest != [] ==> rest[0].length <= RunTotal(rest)
  {
    hide Adjacent;
    assert ([last] + rest)[1..] == rest;
  }

  // The merged entry and what may still be merged stay below 2^32.
  lemma {:induction false} ShortRunsSufficeFrom(entry: Segment, last: RawSegment, rest: seq<RawSegment>)
    requires last.length <= entry.length < TWO_32 && SameEnd(entry, last) && ShortRuns(rest)
    requires entry.length - last.length + RunTotal([last] + rest) < TWO_32
    ensures GuardSufficesFrom(entry, last, rest)
    decreases rest, 1
  {
    hide Adjacent, Merges, SameEnd, RunTotal, ShortRuns, Coalesce;
    if rest != [] && Merges(entry, last, rest[0]) {
      ShortRunsRest(rest);
      MergesAdjacent(entry, last, rest[0]);
      RunTotalStep(last, rest);
      assert rest == [rest[0]] + rest[1..];
      MergedEnd(entry, rest[0]);
      ShortRunsSufficeFrom(Segment(entry.pointer, entry.length + rest[0].length), rest[0], rest[1..]);
    } else {
      ShortRunsSuffice(rest);
    }
  }

  lemma MergesAdjacent(entry: Segment, last: RawSegment, next: RawSegment)
    requires SameEnd(entry, last) && Merges(entry, last, next)
    ensures Adjacent(entry, next) && Adjacent(last, next)
  {
  }

  lemma {:induction false} ShortRunsSuffice(raw: seq<RawSegment>)
    requires ShortRuns(raw)
    ensures GuardSuffices(raw)
    decreases raw, 0
  {
    if raw != [] {
      ShortRunsRest(raw);
      assert [raw[0]] + raw[1..] == raw;
      ShortRunsSufficeFrom(raw[0], raw[0], raw[1..]);
    }
  }

  // And they have when no contiguous run of the raw table reaches 2^32 bytes.
  lemma CoalesceOfShortRuns(raw: seq<RawSegment>)
    requires ShortRuns(raw)
    ensures Shorter(Coalesce(raw), TWO_32)
  {
    ShortRunsSuffice(raw);
    CoalesceFitsExactlyWhen(raw);
  }

  // The comment in the source promises lengths of at most 32 bits; two adjacent entries of growing length break it.
  lemma CoalesceCanExceed32Bits()
    ensures var raw: seq<RawSegment> := [Segment(0, 0x1000), Segment(0x1000, 0xffff_f000)];
            Coalesce(raw) == [Segment(0, TWO_32)]
  {
    var raw: seq<RawSegment> := [Segment(0, 0x1000), Segment(0x1000, 0xffff_f000)];
    assert raw[1..] == [raw[1]];
    assert Coalesce(raw) == CoalesceFrom(Segment(0, TWO_32), raw[1], []);
    assert Coalesce([]) == [];
  }

  // -- How much is merged ------------------------------------------------------------------------------------------

  // Where entry j ends, a raw entry i ends, and the next entry starts with raw entry i + 1. The two entries were left
  // apart only because they do not meet, or because entry j and its last raw entry together reach 2^32 - 1 bytes.
  ghost predicate StopsAt(list: seq<Segment>, j: nat, raw: seq<RawSegment>, i: nat) {
    && j + 1 < |list| && i + 1 < |raw|
    && Total(list[..j + 1]) == Total(raw[..i + 1])
    && Wrap(list[j].pointer + list[j].length) == Wrap(raw[i].pointer + raw[i].length)
    && list[j + 1].pointer == raw[i + 1].pointer
    && (Wrap(list[j].pointer + list[j].length) != list[j + 1].pointer || list[j].length + raw[i].length >= 0xffff_ffff)
  }

  lemma StopsLater(first: Segment, list: seq<Segment>, j: nat, front: seq<RawSegment>, raw: seq<RawSegment>, i: nat)
    requires StopsAt(list, j, raw, i) && Total(front) == first.length
    ensures StopsAt([first] + list, j + 1, front + raw, |front| + i)
  {
    hide Wrap, Total;
    TotalsLater(first, list, j + 1, front, raw, i + 1);
    var all, both := [first] + list, front + raw;
    assert all[j + 1] == list[j] && all[j + 2] == list[j + 1];
    assert both[|front| + i] == raw[i] && both[|front| + i + 1] == raw[i + 1];
  }

  lemma TotalsLater(first: Segment, list: seq<Segment>, k: nat, front: seq<RawSegment>, raw: seq<RawSegment>, n: nat)
    requires k <= |list| && n <= |raw| && Total(list[..k]) == Total(raw[..n]) && Total(front) == first.length
    ensures Total(([first] + list)[..k + 1]) == Total((front + raw)[..|front| + n])
  {
    hide Total;
    assert ([first] + list)[..k + 1] == [first] + list[..k];
    assert (front + raw)[..|front| + n] == front + raw[..n];
    BytesAppend([first], list[..k]);
    BytesAppend(front, raw[..n]);
    SingleTotal(first);
  }

  // The entry under construction consists of the raw entries in front, the last of which is `last`.
  lemma {:induction false} CoalesceFromIsMaximal(entry: Segment, front: seq<RawSegment>, rest: seq<RawSegment>, j: nat)
    returns (i: nat)
    requires front != [] && Total(front) == entry.length < 2 * TWO_32
    requires SameEnd(entry, front[|front| - 1])
    requires j + 1 < |CoalesceFrom(entry, front[|front| - 1], rest)|
    ensures StopsAt(CoalesceFrom(entry, front[|front| - 1], rest), j, front + rest, i)
    decreases rest, 2
  {
    hide CoalesceFrom, Coalesce, Total, StopsAt, Adjacent, Wrap;
    var last := front[|front| - 1];
    CoalesceFromIs(entry, last, rest);
    if rest != [] && Merges(entry, last, rest[0]) {
      var merged := Segment(entry.pointer, entry.length + rest[0].length);
      var longer := front + [rest[0]];
      BytesAppend(front, [rest[0]]);
      SingleTotal(rest[0]);
      MergedSameEnd(entry, rest[0]);
      i := CoalesceFromIsMaximal(merged, longer, rest[1..], j);
      assert front + rest == longer + rest[1..];
    } else {
      i := StopsBehind(entry, front, rest, j);
    }
  }

  lemma SingleTotal(s: Segment)
    ensures Total([s]) == s.length
  {
    assert [s][1..] == [];
  }

  lemma MergedSameEnd(entry: Segment, next: RawSegment)
    requires Adjacent(entry, next) && entry.length + next.length < TWO_64
    ensures SameEnd(Segment(entry.pointer, entry.length + next.length), next)
  {
    WrapAdds(entry.pointer + entry.length, next.length);
  }

  lemma {:induction false} StopsBehind(entry: Segment, front: seq<RawSegment>, rest: seq<RawSegment>, j: nat)
    returns (i: nat)
    requires front != [] && Total(front) == entry.length < 2 * TWO_32
    requires SameEnd(entry, front[|front| - 1])
    requires rest == [] || !Merges(entry, front[|front| - 1], rest[0])
    requires j + 1 < |[entry] + Coalesce(rest)|
    ensures StopsAt([entry] + Coalesce(rest), j, front + rest, i)
    decreases rest, 1
  {
    hide Coalesce, Wrap, CoalesceFrom;
    CoalesceEmptyOrNot(rest);
    if j == 0 {
      i := |front| - 1;
      assert ([entry] + Coalesce(rest))[..1] == [entry];
      SingleTotal(entry);
      assert (front + rest)[..|front|] == front;
      NotMerged(entry, front[|front| - 1], rest[0]);
    } else {
      var k := CoalesceIsMaximal(rest, j - 1);
      StopsLater(entry, Coalesce(rest), j - 1, front, rest, k);
      i := |front| + k;
    }
  }

  lemma NotMerged(entry: Segment, last: RawSegment, next: RawSegment)
    requires !Merges(entry, last, next)
    ensures Wrap(entry.pointer + entry.length) != next.pointer || entry.length + last.length >= 0xffff_ffff
  {
  }

  lemma CoalesceEmptyOrNot(raw: seq<RawSegment>)
    ensures raw == [] ==> Coalesce(raw) == []
    ensures raw != [] ==> Coalesce(raw) != [] && Coalesce(raw)[0].pointer == raw[0].pointer
  {
    if raw != [] {
      CoalesceFromStarts(raw[0], raw[0], raw[1..]);
    }
  }

  lemma {:induction false} CoalesceFromStarts(entry: Segment, last: RawSegment, rest: seq<RawSegment>)
    requires entry.length < 2 * TWO_32
    ensures CoalesceFrom(entry, last, rest) != [] && CoalesceFrom(entry, last, rest)[0].pointer == entry.pointer
    decreases rest
  {
    hide Adjacent;
    if rest != [] && Merges(entry, last, rest[0]) {
      CoalesceFromStarts(Segment(entry.pointer, entry.length + rest[0].length), rest[0], rest[1..]);
    }
  }

  // Coalescing is maximal: two consecutive entries that continue each other were left apart only because the first one
  // and its last raw entry reach 2^32 - 1 bytes.
  lemma {:induction false} CoalesceIsMaximal(raw: seq<RawSegment>, j: nat) returns (i: nat)
    requires j + 1 < |Coalesce(raw)|
    ensures StopsAt(Coalesce(raw), j, raw, i)
    decreases raw, 0
  {
    hide StopsAt, CoalesceFrom, Wrap;
    var first := raw[0];
    SingleTotal(first);
    i := CoalesceFromIsMaximal(first, [first], raw[1..], j);
    assert [first] + raw[1..] == raw;
  }

  // The contiguous runs of a table, put together from its end: where each starts and how long it is.
  function ContiguousRuns(raw: seq<RawSegment>): (runs: seq<(uint64, nat)>)
    ensures raw == [] <==> runs == []
  {
    if raw == [] then []
    else
      var later := ContiguousRuns(raw[1..]);
      if later != [] && Adjacent(raw[0], raw[1]) then
        [(raw[0].pointer, raw[0].length + later[0].1)] + later[1..]
      else [(raw[0].pointer, raw[0].length)] + later
  }

  // One more than the number of places where the table does not go on where it was.
  function Breaks(raw: seq<RawSegment>): nat {
    if |raw| < 2 then 0 else (if Adjacent(raw[0], raw[1]) then 0 else 1) + Breaks(raw[1..])
  }

  lemma {:induction false} RunsAreBetweenBreaks(raw: seq<RawSegment>)
    requires raw != []
    ensures |ContiguousRuns(raw)| == Breaks(raw) + 1
  {
    hide Adjacent;
    if |raw| > 1 {
      RunsAreBetweenBreaks(raw[1..]);
    }
  }

  lemma RunsStep(raw: seq<RawSegment>)
    requires raw != []
    ensures var later := ContiguousRuns(raw[1..]);
            ContiguousRuns(raw)
            == if later != [] && Adjacent(raw[0], raw[1]) then
                 [(raw[0].pointer, raw[0].length + later[0].1)] + later[1..]
               else [(raw[0].pointer, raw[0].length)] + later
  {
    hide Adjacent, Wrap;
    assert raw[1..] != [] <==> ContiguousRuns(raw[1..]) != [];
  }

  lemma RunExtends(a: RawSegment, b: RawSegment, length: nat)
    requires Adjacent(a, b)
    ensures Wrap(a.pointer + (a.length + length)) == Wrap(b.pointer + length)
  {
    WrapAdds(a.pointer + a.length, length);
  }

  lemma RunEnds(a: RawSegment, b: RawSegment)
    requires !Adjacent(a, b)
    ensures Wrap(a.pointer + a.length) != b.pointer
  {
  }

  // No run goes on where the one before it ends.
  lemma {:induction false} RunsAreApart(raw: seq<RawSegment>, k: nat)
    requires k + 1 < |ContiguousRuns(raw)|
    ensures var runs := ContiguousRuns(raw); Wrap(runs[k].0 + runs[k].1) != runs[k + 1].0
  {
    hide Wrap, ContiguousRuns, Adjacent;
    RunsStep(raw);
    var later := ContiguousRuns(raw[1..]);
    if later != [] {
      RunsBegin(raw[1..]);
      if Adjacent(raw[0], raw[1]) {
        RunsAreApart(raw[1..], k);
        RunExtends(raw[0], raw[1], later[0].1);
      } else if k > 0 {
        RunsAreApart(raw[1..], k - 1);
      } else {
        RunEnds(raw[0], raw[1]);
      }
    }
  }

  // No contiguous run reaches 2^31 bytes.
  ghost predicate ModestRuns(raw: seq<RawSegment>) {
    forall i :: 0 <= i < |raw| ==> RunTotal(raw[i..]) < 0x8000_0000
  }

  lemma ModestRunsRest(raw: seq<RawSegment>)
    requires raw != [] && ModestRuns(raw)
    ensures RunTotal(raw) < 0x8000_0000 && ModestRuns(raw[1..])
  {
    hide RunTotal;
    assert raw[0..] == raw;
    forall i | 0 <= i < |raw[1..]|
      ensures RunTotal(raw[1..][i..]) < 0x8000_0000
    {
      assert raw[1..][i..] == raw[i + 1..];
    }
  }

  ghost predicate SameRuns(list: seq<Segment>, runs: seq<(uint64, nat)>) {
    |list| == |runs| && forall k :: 0 <= k < |list| ==> list[k].pointer == runs[k].0 && list[k].length == runs[k].1
  }

  // The runs from an entry on that already has some of the bytes before `last`.
  function Prefixed(entry: Segment, last: RawSegment, runs: seq<(uint64, nat)>): seq<(uint64, nat)>
    requires runs != [] && last.length <= entry.length
  {
    [(entry.pointer, entry.length - last.length + runs[0].1)] + runs[1..]
  }

  lemma {:induction false} CoalesceFromIsRuns(entry: Segment, last: RawSegment, rest: seq<RawSegment>)
    requires last.length <= entry.length < TWO_32 && SameEnd(entry, last) && ModestRuns(rest)
    requires entry.length - last.length + RunTotal([last] + rest) < 0x8000_0000
    ensures SameRuns(CoalesceFrom(entry, last, rest), Prefixed(entry, last, ContiguousRuns([last] + rest)))
    decreases rest, 1
  {
    hide Adjacent, Merges, SameEnd, RunTotal, ModestRuns, Coalesce, CoalesceFrom, SameRuns, ContiguousRuns, Prefixed;
    CoalesceFromIs(entry, last, rest);
    RunTotalAtLeast(last, rest);
    if rest != [] {
      ModestRunsRest(rest);
      RunTotalStep(last, rest);
      MergesExactlyWhen(entry, last, rest[0]);
      assert [rest[0]] + rest[1..] == rest;
    }
    if rest != [] && Merges(entry, last, rest[0]) {
      var merged := Segment(entry.pointer, entry.length + rest[0].length);
      MergedEnd(entry, rest[0]);
      CoalesceFromIsRuns(merged, rest[0], rest[1..]);
      RunsMerge(entry, last, rest);
    } else {
      CoalesceIsRuns(rest);
      RunsStart(entry, last, rest);
    }
  }

  lemma RunTotalAtLeast(last: RawSegment, rest: seq<RawSegment>)
    ensures last.length <= RunTotal([last] + rest)
  {
  }

  lemma MergesExactlyWhen(entry: Segment, last: RawSegment, next: RawSegment)
    requires SameEnd(entry, last) && entry.length < 0x8000_0000 && last.length < 0x8000_0000
    ensures Merges(entry, last, next) <==> Adjacent(last, next)
    ensures Adjacent(last, next) <==> Adjacent(entry, next)
  {
  }

  lemma RunsMerge(entry: Segment, last: RawSegment, rest: seq<RawSegment>)
    requires last.length <= entry.length < TWO_32 && rest != [] && Adjacent(last, rest[0])
    ensures var merged := Segment(entry.pointer, entry.length + rest[0].length);
            Prefixed(entry, last, ContiguousRuns([last] + rest))
            == Prefixed(merged, rest[0], ContiguousRuns([rest[0]] + rest[1..]))
  {
    hide Adjacent, ContiguousRuns, Prefixed;
    assert [rest[0]] + rest[1..] == rest;
    RunsUnfold(last, rest);
    var merged := Segment(entry.pointer, entry.length + rest[0].length);
    var runs := ContiguousRuns(rest);
    PrefixedIs(entry, last, [(last.pointer, last.length + runs[0].1)] + runs[1..]);
    PrefixedIs(merged, rest[0], runs);
  }

  lemma RunsUnfold(last: RawSegment, rest: seq<RawSegment>)
    ensures rest != [] ==> ContiguousRuns(rest) != []
    ensures rest != [] && Adjacent(last, rest[0]) ==>
              var runs := ContiguousRuns(rest);
              ContiguousRuns([last] + rest) == [(last.pointer, last.length + runs[0].1)] + runs[1..]
  {
    hide Adjacent;
    assert ([last] + rest)[1..] == rest;
  }

  lemma PrefixedIs(entry: Segment, last: RawSegment, runs: seq<(uint64, nat)>)
    requires runs != [] && last.length <= entry.length
    ensures Prefixed(entry, last, runs) == [(entry.pointer, entry.length - last.length + runs[0].1)] + runs[1..]
  {
  }

  lemma RunsStart(entry: Segment, last: RawSegment, rest: seq<RawSegment>)
    requires last.length <= entry.length && (rest != [] ==> !Adjacent(last, rest[0]))
    requires SameRuns(Coalesce(rest), ContiguousRuns(rest))
    ensures SameRuns([entry] + Coalesce(rest), Prefixed(entry, last, ContiguousRuns([last] + rest)))
  {
    hide Adjacent, Coalesce;
    assert ([last] + rest)[1..] == rest;
  }

  // With runs of less than 2^31 bytes the coalesced list is exactly the list of contiguous runs.
  lemma {:induction false} CoalesceIsRuns(raw: seq<RawSegment>)
    requires ModestRuns(raw)
    ensures SameRuns(Coalesce(raw), ContiguousRuns(raw))
    decreases raw, 0
  {
    if raw != [] {
      ModestRunsRest(raw);
      assert [raw[0]] + raw[1..] == raw;
      CoalesceFromIsRuns(raw[0], raw[0], raw[1..]);
      assert Prefixed(raw[0], raw[0], ContiguousRuns(raw)) == ContiguousRuns(raw) by {
        RunsBegin(raw);
      }
    }
  }

  lemma RunsBegin(raw: seq<RawSegment>)
    requires raw != []
    ensures ContiguousRuns(raw)[0].0 == raw[0].pointer
  {
    hide Adjacent;
  }

  // -- Splitting (dma_channel::prepareSgList) ----------------------------------------------------------------------

  function SplitSegment(s: Segment, page: PageSize): (r: seq<Segment>)
    ensures r != []
    decreases s.length
  {
    if s.length < TWO_32 then [s]
    else
      var cut := TWO_32 - page;
      [Segment(s.pointer, cut)] + SplitSegment(Segment(Wrap(s.pointer + cut), s.length - cut), page)
  }

  function PrepareSgList(list: seq<Segment>, page: PageSize): seq<Segment> {
    if list == [] then [] else SplitSegment(list[0], page) + PrepareSgList(list[1..], page)
  }

  lemma SplitUnfold(s: Segment, page: PageSize)
    ensures s.length < TWO_32 ==> SplitSegment(s, page) == [s]
    ensures s.length >= TWO_32 ==>
              var cut := TWO_32 - page;
              SplitSegment(s, page)
              == [Segment(s.pointer, cut)] + SplitSegment(Segment(Wrap(s.pointer + cut), s.length - cut), page)
  {
    hide Wrap;
  }

  lemma PrepareUnfold(list: seq<Segment>, i: nat, page: PageSize)
    requires i <= |list|
    ensures i == |list| ==> PrepareSgList(list[i..], page) == []
    ensures i < |list| ==>
              PrepareSgList(list[i..], page) == SplitSegment(list[i], page) + PrepareSgList(list[i + 1..], page)
  {
    hide SplitSegment;
    if i < |list| {
      assert list[i..][1..] == list[i + 1..];
    }
  }

  lemma {:induction false} SplitKeepsBytes(s: Segment, page: PageSize)
    ensures Bytes(SplitSegment(s, page)) == Span(s.pointer, s.length)
    ensures Shorter(SplitSegment(s, page), TWO_32)
    ensures 0 < s.length ==> Positive(SplitSegment(s, page))
    decreases s.length
  {
    hide Span, Wrap;
    if s.length < TWO_32 {
      assert [s][1..] == [];
      assert Bytes([s]) == Span(s.pointer, s.length) + Bytes([]);
    } else {
      var cut := TWO_32 - page;
      var first, rest := Segment(s.pointer, cut), Segment(Wrap(s.pointer + cut), s.length - cut);
      SplitKeepsBytes(rest, page);
      SpanSplit(s.pointer, cut, s.length - cut);
      var pieces := SplitSegment(s, page);
      assert pieces[0] == first && pieces[1..] == SplitSegment(rest, page);
    }
  }

  // A segment of at least a page splits into floor((length - page) / (2^32 - page)) + 1 pieces, a shorter one stays.
  lemma {:induction false} SplitCount(s: Segment, page: PageSize)
    ensures |SplitSegment(s, page)| == if s.length < page then 1 else (s.length - page) / (TWO_32 - page) + 1
    decreases s.length
  {
    var cut := TWO_32 - page;
    if s.length >= TWO_32 {
      var rest := Segment(Wrap(s.pointer + cut), s.length - cut);
      SplitCount(rest, page);
      QuotientStep(rest.length - page, cut);
    } else if s.length >= page {
      QuotientSmall(s.length - page, cut);
    }
  }

  lemma QuotientStep(x: nat, cut: nat)
    requires cut > 0
    ensures (x + cut) / cut == x / cut + 1
  {
    var q := x / cut;
    assert (q + 1) * cut == q * cut + cut;
    RemainderUnique(x + cut, q + 1, x % cut, cut);
  }

  lemma QuotientSmall(x: nat, cut: nat)
    requires x < cut
    ensures x / cut == 0
  {
    RemainderUnique(x, 0, x, cut);
  }

  // Splitting keeps the bytes, cuts every length to 32 bits and loses no entry.
  lemma {:induction false} PrepareKeepsBytes(list: seq<Segment>, page: PageSize)
    ensures Bytes(PrepareSgList(list, page)) == Bytes(list)
    ensures Shorter(PrepareSgList(list, page), TWO_32)
    ensures Positive(list) ==> Positive(PrepareSgList(list, page))
    ensures |list| <= |PrepareSgList(list, page)|
  {
    if list != [] {
      SplitKeepsBytes(list[0], page);
      PrepareKeepsBytes(list[1..], page);
      BytesAppend(SplitSegment(list[0], page), PrepareSgList(list[1..], page));
    }
  }

  // The entry count written to the device is that of the coalesced list. It matches the number of descriptors in the
  // RAM exactly when no coalesced entry needs splitting.
  lemma {:induction false} PrepareIsIdentityExactlyWhenShort(list: seq<Segment>, page: PageSize)
    ensures Shorter(list, TWO_32) <==> PrepareSgList(list, page) == list
    ensures Shorter(list, TWO_32) <==> |PrepareSgList(list, page)| == |list|
  {
    if list != [] {
      PrepareIsIdentityExactlyWhenShort(list[1..], page);
      PrepareKeepsBytes(list[1..], page);
      if list[0].length >= TWO_32 {
        assert list[0] in list;
        assert |SplitSegment(list[0], page)| >= 2;
      } else {
        assert list == [list[0]] + list[1..];
      }
    }
  }

  // -- Offset to address and back (buffer::offsetToPhysAddr, physAddrToOffset) ---------------------------------------

  // A physical address, and how much of its segment is left from there.
  datatype Location = Location(address: uint64, rest: uint64)

  function LocateFrom(list: seq<Segment>, offset: nat, reference: nat): Option<Location> {
    if list == [] then None
    else if reference <= offset < reference + list[0].length then
      Some(Location(Wrap(list[0].pointer + (offset - reference)), list[0].length - (offset - reference)))
    else LocateFrom(list[1..], offset, reference + list[0].length)
  }

  function Locate(list: seq<Segment>, offset: nat): Option<Location> {
    LocateFrom(list, offset, 0)
  }

  // The offset at which segment i ends.
  function SegmentEnd(list: seq<Segment>, i: nat): nat
    requires i < |list|
  {
    Total(list[..i + 1])
  }

  ghost predicate IsSegmentEnd(list: seq<Segment>, offset: nat) {
    exists i :: 0 <= i < |list| && SegmentEnd(list, i) == offset
  }

  lemma SegmentEnds(list: seq<Segment>, i: nat)
    requires i < |list|
    ensures SegmentEnd(list, i) == list[0].length + if i == 0 then 0 else SegmentEnd(list[1..], i - 1)
  {
    var front := list[..i + 1];
    assert front[0] == list[0] && front[1..] == list[1..][..i];
    assert Total(front) == list[0].length + Total(list[1..][..i]);
    if i > 0 {
      assert SegmentEnd(list[1..], i - 1) == Total(list[1..][..i]);
    } else {
      assert list[1..][..i] == [];
    }
  }

  // The part of a segment from byte o on.
  lemma SegmentTail(s: Segment, rest: seq<int>, o: nat)
    requires o <= s.length
    ensures (Span(s.pointer, s.length) + rest)[o..s.length] == Span(Wrap(s.pointer + o), s.length - o)
  {
    SpanSplit(s.pointer, o, s.length - o);
    assert (Span(s.pointer, s.length) + rest)[o..s.length] == Span(s.pointer, s.length)[o..];
  }

  lemma {:induction false} LocateFromIs(list: seq<Segment>, offset: nat, reference: nat)
    requires reference <= offset
    ensures LocateFrom(list, offset, reference).Some? <==> offset < reference + Total(list)
    ensures LocateFrom(list, offset, reference).Some? ==>
              var l := LocateFrom(list, offset, reference).value;
              var o := offset - reference;
              && |Bytes(list)| == Total(list)
              && 0 < l.rest && o + l.rest <= Total(list)
              && Bytes(list)[o..o + l.rest] == Span(l.address, l.rest)
              && IsSegmentEnd(list, o + l.rest)
  {
    hide Span, SegmentEnd, Wrap, IsSegmentEnd, Bytes;
    BytesTotal(list);
    if list != [] {
      if offset < reference + list[0].length {
        LocatedFirst(list, offset - reference);
      } else {
        LocateFromIs(list[1..], offset, reference + list[0].length);
        if offset < reference + Total(list) {
          LocatedLater(list, LocateFrom(list, offset, reference).value, offset - reference - list[0].length);
        }
      }
    }
  }

  // A byte of the first segment.
  lemma LocatedFirst(list: seq<Segment>, o: nat)
    requires list != [] && o < list[0].length
    ensures var l := Location(Wrap(list[0].pointer + o), list[0].length - o);
            && o + l.rest <= |Bytes(list)|
            && Bytes(list)[o..o + l.rest] == Span(l.address, l.rest)
            && IsSegmentEnd(list, o + l.rest)
  {
    hide Span, SegmentEnd, Wrap;
    SegmentTail(list[0], Bytes(list[1..]), o);
    SegmentEnds(list, 0);
    assert SegmentEnd(list, 0) == list[0].length;
  }

  lemma SliceBehind(a: seq<int>, b: seq<int>, o: nat, k: nat)
    requires o + k <= |b|
    ensures (a + b)[o + |a|..o + |a| + k] == b[o..o + k]
  {
  }

  // A byte of the rest of the list.
  lemma LocatedLater(list: seq<Segment>, l: Location, o: nat)
    requires list != [] && o + l.rest <= |Bytes(list[1..])|
    requires Bytes(list[1..])[o..o + l.rest] == Span(l.address, l.rest) && IsSegmentEnd(list[1..], o + l.rest)
    ensures var n := list[0].length;
            && o + n + l.rest <= |Bytes(list)|
            && Bytes(list)[o + n..o + n + l.rest] == Span(l.address, l.rest)
            && IsSegmentEnd(list, o + n + l.rest)
  {
    hide *;
    BytesUnfold(list);
    SliceBehind(Span(list[0].pointer, list[0].length), Bytes(list[1..]), o, l.rest);
    LaterSegmentEnd(list, o + l.rest);
  }

  lemma BytesUnfold(list: seq<Segment>)
    requires list != []
    ensures Bytes(list) == Span(list[0].pointer, list[0].length) + Bytes(list[1..])
  {
  }

  lemma LaterSegmentEnd(list: seq<Segment>, end: nat)
    requires list != [] && IsSegmentEnd(list[1..], end)
    ensures IsSegmentEnd(list, list[0].length + end)
  {
    hide SegmentEnd;
    var i :| 0 <= i < |list[1..]| && SegmentEnd(list[1..], i) == end;
    SegmentEnds(list, i + 1);
    assert SegmentEnd(list, i + 1) == list[0].length + end;
  }

  // Exactly the offsets below the total resolve, to the address of that byte; the reported rest runs to the end of the
  // segment, and the addresses up to there are consecutive.
  lemma LocateIs(list: seq<Segment>, offset: nat)
    ensures Locate(list, offset).Some? <==> offset < Total(list)
    ensures Locate(list, offset).Some? ==>
              var l := Locate(list, offset).value;
              && |Bytes(list)| == Total(list)
              && 0 < l.rest && offset + l.rest <= Total(list)
              && Bytes(list)[offset] == l.address
              && Bytes(list)[offset..offset + l.rest] == Span(l.address, l.rest)
              && IsSegmentEnd(list, offset + l.rest)
  {
    hide Bytes, Total, LocateFrom, IsSegmentEnd;
    LocateFromIs(list, offset, 0);
    if offset < Total(list) {
      var l, bytes := Locate(list, offset).value, Bytes(list);
      assert bytes[offset..offset + l.rest][0] == bytes[offset];
      assert Span(l.address, l.rest)[0] == Wrap(l.address) == l.address;
    }
  }

  function ResolveFrom(list: seq<Segment>, address: uint64, reference: nat): Option<nat> {
    if list == [] then None
    else if list[0].pointer <= address < Wrap(list[0].pointer + list[0].length) then
      Some(reference + (address - list[0].pointer))
    else ResolveFrom(list[1..], address, reference + list[0].length)
  }

  function Resolve(list: seq<Segment>, address: uint64): Option<nat> {
    ResolveFrom(list, address, 0)
  }

  ghost predicate InAddressSpace(list: seq<Segment>) {
    forall e :: e in list ==> e.pointer + e.length < TWO_64
  }

  ghost predicate Disjoint(list: seq<Segment>) {
    forall i, j :: 0 <= i < j < |Bytes(list)| ==> Bytes(list)[i] != Bytes(list)[j]
  }

  lemma {:induction false} ResolveFromIsSound(list: seq<Segment>, address: uint64, reference: nat)
    ensures ResolveFrom(list, address, reference).Some? ==>
              var o := ResolveFrom(list, address, reference).value;
              reference <= o < reference + |Bytes(list)| && Bytes(list)[o - reference] == address
  {
    if list != [] {
      var s := list[0];
      if s.pointer <= address < Wrap(s.pointer + s.length) {
        assert Span(s.pointer, s.length)[address - s.pointer] == Wrap(address) == address;
      } else {
        ResolveFromIsSound(list[1..], address, reference + s.length);
      }
    }
  }

  lemma {:induction false} ResolveFromIsComplete(list: seq<Segment>, address: uint64, reference: nat)
    requires InAddressSpace(list) && ResolveFrom(list, address, reference).None?
    ensures address !in Bytes(list)
  {
    if list != [] {
      var s := list[0];
      assert s.pointer + s.length < TWO_64;
      ResolveFromIsComplete(list[1..], address, reference + s.length);
      var span := Span(s.pointer, s.length);
      forall j | 0 <= j < s.length
        ensures span[j] == s.pointer + j
      {
        assert s.pointer + j < TWO_64;
        assert span[j] == Wrap(s.pointer + j);
      }
    }
  }

  // An offset found for an address belongs to it; below the end of the address space every address of the buffer is
  // found.
  lemma ResolveIs(list: seq<Segment>, address: uint64)
    ensures Resolve(list, address).Some? ==>
              Resolve(list, address).value < |Bytes(list)| && Bytes(list)[Resolve(list, address).value] == address
    ensures InAddressSpace(list) ==> (Resolve(list, address).Some? <==> address in Bytes(list))
  {
    ResolveFromIsSound(list, address, 0);
    if InAddressSpace(list) && Resolve(list, address).None? {
      ResolveFromIsComplete(list, address, 0);
    }
  }

  // On disjoint segments the two lookups undo each other, with domains [0, total) and the union of the segments.
  lemma LocateResolveInverse(list: seq<Segment>, offset: nat, address: uint64)
    requires InAddressSpace(list) && Disjoint(list)
    ensures offset < Total(list) ==>
              Locate(list, offset).Some? && Resolve(list, Locate(list, offset).value.address) == Some(offset)
    ensures address in Bytes(list) ==>
              && Resolve(list, address).Some?
              && Locate(list, Resolve(list, address).value).Some?
              && Locate(list, Resolve(list, address).value).value.address == address
  {
    BytesTotal(list);
    LocateIs(list, offset);
    ResolveIs(list, address);
    if offset < Total(list) {
      ResolveIs(list, Locate(list, offset).value.address);
    }
    if address in Bytes(list) {
      LocateIs(list, Resolve(list, address).value);
    }
  }

  lemma DisjointRest(list: seq<Segment>)
    requires list != [] && Disjoint(list)
    ensures Disjoint(list[1..])
    ensures forall a :: a in Span(list[0].pointer, list[0].length) ==> a !in Bytes(list[1..])
  {
    var n, all, rest := list[0].length, Bytes(list), Bytes(list[1..]);
    forall i, j | 0 <= i < j < |rest|
      ensures rest[i] != rest[j]
    {
      assert rest[i] == all[n + i] && rest[j] == all[n + j];
    }
    var span := Span(list[0].pointer, n);
    forall i, j | 0 <= i < n && 0 <= j < |rest|
      ensures span[i] != rest[j]
    {
      assert all[i] == span[i] && all[n + j] == rest[j];
    }
  }

  // Of a segment that reaches the end of the address space, no address passes the lookup's comparison.
  lemma WrappedSegmentMatchesNothing(s: Segment, address: uint64)
    requires s.pointer + s.length >= TWO_64
    ensures !(s.pointer <= address < Wrap(s.pointer + s.length))
    ensures s.pointer in Span(s.pointer, s.length)
  {
    WrapOnce(s.pointer + s.length);
    assert Span(s.pointer, s.length)[0] == Wrap(s.pointer + 0) == s.pointer;
  }

  // So the lookup misses one of the buffer's addresses.
  lemma {:induction false} TopSegmentIsMissed(list: seq<Segment>, reference: nat) returns (address: uint64)
    requires Disjoint(list) && !InAddressSpace(list)
    ensures address in Bytes(list) && ResolveFrom(list, address, reference).None?
  {
    hide Disjoint, Span, Wrap;
    var s := list[0];
    DisjointRest(list);
    if s.pointer + s.length >= TWO_64 {
      address := s.pointer;
      WrappedSegmentMatchesNothing(s, address);
      ResolveFromIsSound(list[1..], address, reference + s.length);
    } else {
      assert list == [s] + list[1..];
      address := TopSegmentIsMissed(list[1..], reference + s.length);
      SpanHolds(s.pointer, s.length);
      EndIs(s);
    }
  }

  lemma EndIs(s: Segment)
    requires s.pointer + s.length < TWO_64
    ensures Wrap(s.pointer + s.length) == s.pointer + s.length
  {
  }

  lemma SpanHolds(p: nat, n: nat)
    requires p + n <= TWO_64
    ensures forall a :: p <= a < p + n ==> a in Span(p, n)
  {
    forall a | p <= a < p + n
      ensures a in Span(p, n)
    {
      assert Span(p, n)[a - p] == Wrap(p + (a - p)) == a;
    }
  }

  lemma WrapOnce(x: nat)
    requires TWO_64 <= x < 2 * TWO_64
    ensures Wrap(x) == x - TWO_64
  {
  }

  // On disjoint segments every address of the buffer is found exactly when no segment reaches the end of the address
  // space, where its end wraps.
  lemma AllAddressesResolveExactlyWhen(list: seq<Segment>)
    requires Disjoint(list)
    ensures InAddressSpace(list) <==> forall a: uint64 :: a in Bytes(list) ==> Resolve(list, a).Some?
  {
    if InAddressSpace(list) {
      forall a: uint64 | a in Bytes(list)
        ensures Resolve(list, a).Some?
      {
        ResolveIs(list, a);
      }
    } else {
      var a := TopSegmentIsMissed(list, 0);
      assert Resolve(list, a).None?;
    }
  }

  // A segment that ends with the address space is never found by address: its end wraps to zero.
  lemma TopSegmentIsNeverResolved(address: uint64)
    ensures Resolve([Segment(TWO_64 - 0x1000, 0x1000)], address) == None
  {
    var list := [Segment(TWO_64 - 0x1000, 0x1000)];
    assert Wrap(list[0].pointer + list[0].length) == 0;
    assert list[1..] == [] && ResolveFrom([], address, list[0].length) == None;
  }
}
