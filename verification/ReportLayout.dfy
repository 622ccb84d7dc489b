/** The report buffer as the bytes the device sees, and what its read pointer names in them. */
module ReportLayout {
  import opened Bits
  import opened Words
  import opened Slots
  import opened RingProtocol
  import opened RingInvariant
  import opened RingSpec

  // A number in n bytes, low byte first.
  function LittleEndian(x: nat, n: nat): (r: seq<Byte>)
    ensures |r| == n
  {
    if n == 0 then [] else [x % 0x100] + LittleEndian(x / 0x100, n - 1)
  }

  function Number(bytes: seq<Byte>): nat {
    if bytes == [] then 0 else bytes[0] + 0x100 * Number(bytes[1..])
  }

  lemma {:induction false} NumberOfLittleEndian(x: nat, n: nat)
    requires x < Pow2(8 * n)
    ensures Number(LittleEndian(x, n)) == x
  {
    if n > 0 {
      assert Pow2(8 * n) == 0x100 * Pow2(8 * (n - 1)) by {
        EightMore(8 * (n - 1));
      }
      NumberOfLittleEndian(x / 0x100, n - 1);
      assert LittleEndian(x, n)[1..] == LittleEndian(x / 0x100, n - 1);
    }
  }

  lemma FourMore(n: nat)
    ensures Pow2(n + 4) == 16 * Pow2(n)
  {
    assert Pow2(n + 2) == 2 * Pow2(n + 1) == 4 * Pow2(n);
    assert Pow2(n + 4) == 2 * Pow2(n + 3) == 4 * Pow2(n + 2);
  }

  lemma EightMore(n: nat)
    ensures Pow2(n + 8) == 0x100 * Pow2(n)
  {
    FourMore(n);
    FourMore(n + 4);
  }

  // The packed structure: three fields that are used and two that are not.
  function Layout(d: Descriptor, dummy: uint64, dummy2: uint64): seq<Byte> {
    LittleEndian(d.offset, 8) + LittleEndian(d.reportedSize, 4) + LittleEndian(d.calcSize, 4)
    + LittleEndian(dummy, 8) + LittleEndian(dummy2, 8)
  }

  // The whole buffer; the unused fields of slot i may hold anything.
  function Image(slots: seq<Descriptor>, unused: nat -> (uint64, uint64)): seq<Byte> {
    if slots == [] then []
    else
      var n := |slots| - 1;
      Image(slots[..n], unused) + Layout(slots[n], unused(n).0, unused(n).1)
  }

  // Descriptors take 32 bytes each.
  lemma {:induction false} DescriptorIsAt(slots: seq<Descriptor>, unused: nat -> (uint64, uint64), i: nat)
    requires i < |slots|
    ensures |Image(slots, unused)| == 32 * |slots|
    ensures Image(slots, unused)[32 * i..32 * i + 32] == Layout(slots[i], unused(i).0, unused(i).1)
  {
    hide LittleEndian;
    var n := |slots| - 1;
    var front := Image(slots[..n], unused);
    ImageLength(slots[..n], unused);
    if i < n {
      DescriptorIsAt(slots[..n], unused, i);
      assert Image(slots, unused)[32 * i..32 * i + 32] == front[32 * i..32 * i + 32];
    }
  }

  lemma {:induction false} ImageLength(slots: seq<Descriptor>, unused: nat -> (uint64, uint64))
    ensures |Image(slots, unused)| == 32 * |slots|
  {
    hide LittleEndian;
    if slots != [] {
      ImageLength(slots[..|slots| - 1], unused);
    }
  }

  // The three fields a reader finds at a byte position.
  function ReadDescriptor(bytes: seq<Byte>, position: nat): (nat, nat, nat)
    requires position + 32 <= |bytes|
  {
    (Number(bytes[position..position + 8]), Number(bytes[position + 8..position + 12]),
     Number(bytes[position + 12..position + 16]))
  }

  lemma LayoutFields(d: Descriptor, dummy: uint64, dummy2: uint64)
    ensures var bytes := Layout(d, dummy, dummy2);
            && |bytes| == 32
            && Number(bytes[0..8]) == d.offset && Number(bytes[8..12]) == d.reportedSize
            && Number(bytes[12..16]) == d.calcSize
  {
    hide LittleEndian, Number;
    Powers();
    assert Pow2(64) == 0x1_0000_0000_0000_0000 by {
      PowerOf64();
    }
    var bytes := Layout(d, dummy, dummy2);
    assert bytes[0..8] == LittleEndian(d.offset, 8);
    assert bytes[8..12] == LittleEndian(d.reportedSize, 4);
    assert bytes[12..16] == LittleEndian(d.calcSize, 4);
    NumberOfLittleEndian(d.offset, 8);
    NumberOfLittleEndian(d.reportedSize, 4);
    NumberOfLittleEndian(d.calcSize, 4);
  }

  lemma PowerOf64()
    ensures Pow2(64) == 0x1_0000_0000_0000_0000
  {
    Powers();
    EightMore(32);
    EightMore(40);
    EightMore(48);
    EightMore(56);
  }

  // A reader of the buffer finds slot i's descriptor at byte 32 * i.
  lemma ReaderFindsDescriptor(slots: seq<Descriptor>, unused: nat -> (uint64, uint64), i: nat)
    requires i < |slots|
    ensures 32 * i + 32 <= |Image(slots, unused)|
    ensures ReadDescriptor(Image(slots, unused), 32 * i) == (slots[i].offset, slots[i].reportedSize, slots[i].calcSize)
  {
    hide Image, Layout, Number;
    DescriptorIsAt(slots, unused, i);
    LayoutFields(slots[i], unused(i).0, unused(i).1);
    SliceOfSlice(Image(slots, unused), 32 * i, 0, 8);
    SliceOfSlice(Image(slots, unused), 32 * i, 8, 12);
    SliceOfSlice(Image(slots, unused), 32 * i, 12, 16);
  }

  lemma SliceOfSlice(bytes: seq<Byte>, position: nat, from: nat, to: nat)
    requires position + 32 <= |bytes| && from <= to <= 32
    ensures bytes[position..position + 32][from..to] == bytes[position + from..position + to]
  {
    var own := bytes[position..position + 32];
    var a, b := own[from..to], bytes[position + from..position + to];
    forall i | 0 <= i < to - from
      ensures a[i] == b[i]
    {
      assert a[i] == own[from + i];
    }
  }

  // At rest the report pointer is the byte position of the slot retired last, and of the last slot before anything was
  // retired; the event pointer is the offset of the event retired last.
  lemma PublishedBytePosition(r: Ring, h: History, retired: nat)
    requires Settled(r, h, retired)
    ensures retired > 0 ==>
              && r.published.report == 32 * ((retired - 1) % h.n)
              && r.published.event == h.written[retired - 1].offset
    ensures retired == 0 ==> r.published == h.initial
  {
    hide Slot, Contents, ReleaseMap;
    if retired > 0 {
      SlotIsRemainder(retired - 1, h.n);
    }
  }

  lemma InitialBytePosition(n: nat, eventPointer: uint64)
    requires 0 < n && 32 * n < TWO_64
    ensures n * DESCRIPTOR_BYTES < TWO_64
    ensures Initial(n, eventPointer).published == Pointers(eventPointer, 32 * (n - 1))
    ensures forall d :: d in Initial(n, eventPointer).slots ==> d.offset == d.reportedSize == d.calcSize == 0
  {
  }

  // Zeroed slots read as zero bytes' worth of fields, so that the receiver takes them for empty.
  lemma ClearedReadsZero(r: Ring, h: History, retired: nat, k: nat)
    requires Settled(r, h, retired) && |h.written| <= k < retired + h.n
    ensures r.slots[k % h.n] == Descriptor(0, 0, 0)
  {
    SlotIsRemainder(k, h.n);
    assert r.slots[Slot(k, h.n)] == CLEARED;
  }
}
