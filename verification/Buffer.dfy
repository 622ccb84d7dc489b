/** A DMA buffer: its kernel scatter table, read once into a coalesced list, and the lookups on that list. */
module Buffer {
  import opened Options
  import opened Words
  import opened Pages
  import opened ScatterGather
  import opened Windows

  class Buffer {
    // the kernel's table as mapped from sysfs, or None when it cannot be read; the size and the page size
    const table: Option<seq<RawSegment>>
    const size: uint64
    const page: PageSize
    var segments: seq<Segment>
    var initialized: bool

    ghost predicate Valid()
      reads this
    {
      // sizes are signed 64-bit in the source
      && (table.Some? ==> Total(table.value) < 0x8000_0000_0000_0000)
      && (initialized ==> table.Some? && segments == Coalesce(table.value))
    }

    // The list the lookups work on once it is read; empty while the table is unreadable.
    ghost function Segments(): seq<Segment> {
      if table.Some? then Coalesce(table.value) else []
    }

    constructor (table: Option<seq<RawSegment>>, size: uint64, page: PageSize)
      requires table.Some? ==> Total(table.value) < 0x8000_0000_0000_0000
      ensures Valid() && this.table == table && this.size == size && this.page == page && !initialized
    {
      this.table, this.size, this.page := table, size, page;
      segments, initialized := [], false;
    }

    method InitializeSglist() returns (status: int)
      requires Valid()
      modifies this
      ensures Valid()
      ensures status == if table.Some? then 0 else -1
      ensures initialized == table.Some? && segments == Segments()
    {
      hide Coalesce, CoalesceFrom, Adjacent, Wrap, Total;
      initialized := false;
      segments := [];
      if table.None? {
        return -1;
      }
      var raw, i := table.value, 0;
      assert raw[0..] == raw;
      while i < |raw|
        invariant 0 <= i <= |raw| && !initialized
        invariant segments + Coalesce(raw[i..]) == Coalesce(raw)
      {
        var entry: Segment := raw[i];
        CoalesceUnfold(raw, i);
        ghost var done, rest := segments, Coalesce(raw[i..]);
        while i < |raw| - 1 && Adjacent(entry, raw[i + 1]) && entry.length + raw[i].length < 0xffff_ffff
          invariant !initialized && segments == done
          invariant 0 <= i < |raw| && entry.length < 2 * TWO_32
          invariant CoalesceFrom(entry, raw[i], raw[i + 1..]) == rest
          decreases |raw| - i
        {
          CoalesceFromUnfold(entry, raw, i);
          entry := Segment(entry.pointer, entry.length + raw[i + 1].length);
          i := i + 1;
        }
        CoalesceFromUnfold(entry, raw, i);
        assert segments + rest == (segments + [entry]) + Coalesce(raw[i + 1..]);
        segments := segments + [entry];
        i := i + 1;
      }
      CoalesceEmpty(raw);
      assert segments + [] == segments;
      initialized := true;
      status := 0;
    }

    // sgList: an unreadable table gives the empty list.
    method SgList() returns (list: seq<Segment>)
      requires Valid()
      modifies this
      ensures Valid() && list == segments == Segments()
    {
      if !initialized {
        var _ := InitializeSglist();
      }
      list := segments;
    }

    method OffsetToPhysAddr(offset: nat) returns (found: Option<Location>)
      requires Valid()
      modifies this
      ensures Valid() && segments == Segments() && initialized == table.Some?
      ensures found == Locate(Segments(), offset)
    {
      if !initialized {
        var status := InitializeSglist();
        if status != 0 {
          return None;
        }
      }
      var i, reference: nat := 0, 0;
      while i < |segments|
        invariant 0 <= i <= |segments|
        invariant LocateFrom(segments, offset, 0) == LocateFrom(segments[i..], offset, reference)
      {
        if offset >= reference && offset < reference + segments[i].length {
          return Some(Location(Wrap(segments[i].pointer + (offset - reference)),
                               segments[i].length - (offset - reference)));
        } else {
          reference := reference + segments[i].length;
        }
        assert segments[i..][1..] == segments[i + 1..];
        i := i + 1;
      }
      found := None;
    }

    method PhysAddrToOffset(address: uint64) returns (found: Option<nat>)
      requires Valid()
      modifies this
      ensures Valid() && segments == Segments() && initialized == table.Some?
      ensures found == Resolve(Segments(), address)
    {
      if !initialized {
        var status := InitializeSglist();
        if status != 0 {
          return None;
        }
      }
      var i, reference: nat := 0, 0;
      while i < |segments|
        invariant 0 <= i <= |segments|
        invariant ResolveFrom(segments, address, 0) == ResolveFrom(segments[i..], address, reference)
      {
        if address >= segments[i].pointer && address < Wrap(segments[i].pointer + segments[i].length) {
          return Some(reference + (address - segments[i].pointer));
        } else {
          reference := reference + segments[i].length;
        }
        assert segments[i..][1..] == segments[i + 1..];
        i := i + 1;
      }
      found := None;
    }

    method ComposeSglistFromBufferSegment(offset: uint64, length: uint64) returns (ok: bool, list: seq<Segment>)
      requires Valid()
      modifies this
      ensures Valid()
      ensures (ok, list) == Compose(Segments(), size, offset, length, page)
    {
      hide Compose, EntryLength, Segments, Locate, NextOffset;
      var remaining: nat, current: nat := length, offset;
      list := [];
      ComposeNothing(Segments(), size, offset, length, page);
      while remaining > 0
        invariant Valid()
        invariant var (ok', rest) := Compose(Segments(), size, current, remaining, page);
                  Compose(Segments(), size, offset, length, page) == (ok', list + rest)
        decreases remaining
      {
        ComposeStep(Segments(), size, current, remaining, page, list);
        var location := OffsetToPhysAddr(current);
        if location.None? {
          return false, list;
        }
        var n := SegmentLength(location.value, remaining);
        list := list + [Segment(location.value.address, n)];
        remaining := remaining - n;
        NextOffsetIs(current, n, size);
        current := current + n;
        if current == size {
          current := 0;
        }
      }
      ComposeNothing(Segments(), size, current, 0, page);
      ok := true;
      assert list + [] == list;
    }

    method SegmentLength(location: Location, remaining: nat) returns (n: uint64)
      ensures n == EntryLength(location, remaining, page)
    {
      n := location.rest;
      if location.address % page != 0 {
        n := page - location.address % page;
      }
      if n / TWO_32 != 0 {
        n := TWO_32 - page;
      }
      if n >= remaining {
        n := remaining;
      }
    }
  }
}
