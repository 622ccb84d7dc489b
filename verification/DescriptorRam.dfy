/** The device's descriptor RAM: what the control word of a push selects, and what a walk over the RAM reads. */
module DescriptorRam {
  import opened Bits
  import opened Words
  import opened Pages
  import opened ScatterGather

  const SGCTRL_WRITE_ENABLE: nat := 0x8000_0000
  const SGCTRL_TARGET: nat := 0x4000_0000

  datatype Target = EventRam | ReportRam

  // The three registers a descriptor goes through.
  datatype Entry = Entry(low: uint32, high: uint32, length: uint32)

  // The bits below the target select are a RAM address, or the end-of-event flag for the outgoing FIFO.
  function WriteControl(target: Target, low: nat): uint32
    requires low < SGCTRL_TARGET
  {
    SGCTRL_WRITE_ENABLE + (if target.ReportRam? then SGCTRL_TARGET else 0) + low
  }

  predicate WritesRam(control: uint32) {
    control / SGCTRL_WRITE_ENABLE == 1
  }

  function TargetOf(control: uint32): Target {
    if (control / SGCTRL_TARGET) % 2 == 1 then ReportRam else EventRam
  }

  function LowBits(control: uint32): nat {
    control % SGCTRL_TARGET
  }

  // pushSglistEntryToRAM: the address in two halves; its length parameter has 32 bits, so longer lengths are cut off.
  function Encode(s: Segment): Entry {
    Entry(Low32(s.pointer), High32(s.pointer), Low32(s.length))
  }

  function Decode(e: Entry): Segment {
    Segment(Join64(e.high, e.low), e.length)
  }

  lemma ControlRoundTrip(target: Target, low: nat)
    requires low < SGCTRL_TARGET
    ensures var control := WriteControl(target, low);
            WritesRam(control) && TargetOf(control) == target && LowBits(control) == low
  {
  }

  // Bit 31 writes, bit 30 selects the report buffer's RAM, and the 30 bits below are the address or the flag.
  lemma ControlBits(target: Target, low: nat, i: nat)
    requires low < SGCTRL_TARGET && i < 32
    ensures Bit(WriteControl(target, low), i) <==>
            if i == 31 then true else if i == 30 then target == ReportRam else Bit(low, i)
  {
    hide Bit, Pow2;
    assert Pow2(30) == 0x4000_0000 by {
      PowerOf30();
    }
    var top := if target == ReportRam then 3 else 2;
    BitOfFields(top, 30, low, i);
    TwoBits(top, i);
  }

  lemma PowerOf30()
    ensures Pow2(30) == 0x4000_0000
  {
    Powers();
    assert Pow2(28) == 16 * Pow2(24) by {
      assert Pow2(26) == 4 * Pow2(24);
    }
  }

  lemma TwoBits(top: nat, i: nat)
    requires 2 <= top < 4
    ensures i == 30 ==> (Bit(top, i - 30) <==> top == 3)
    ensures i == 31 ==> Bit(top, i - 30)
  {
    assert i == 31 ==> Bit(top, 1) == Bit(top / 2, 0);
  }

  // A descriptor survives the registers exactly when its length has 32 bits; the address is in two halves, and of a
  // longer length the low 32 bits are left.
  lemma EntryRoundTrip(s: Segment)
    ensures Decode(Encode(s)) == s <==> s.length < TWO_32
    ensures var e := Encode(s);
            e.low + 0x1_0000_0000 * e.high == s.pointer && e.length == s.length % 0x1_0000_0000
  {
  }

  function EncodeAll(list: seq<Segment>): (es: seq<Entry>)
    ensures |es| == |list|
    ensures forall i :: 0 <= i < |list| ==> es[i] == Encode(list[i])
  {
    seq(|list|, i requires 0 <= i < |list| => Encode(list[i]))
  }

  const TERMINATOR := Entry(0, 0, 0)

  lemma TerminatorIsZero()
    ensures Encode(Segment(0, 0)) == TERMINATOR
  {
  }

  // The RAM after a list was programmed from index 0.
  function Programmed(ram: seq<Entry>, list: seq<Segment>): seq<Entry>
    requires |list| < |ram|
  {
    EncodeAll(list) + [TERMINATOR] + ram[|list| + 1..]
  }

  // The list from index 0 on, a descriptor of zeros behind it, and the rest as it was.
  lemma ProgrammedIs(ram: seq<Entry>, list: seq<Segment>, i: nat)
    requires |list| < |ram| && i < |ram|
    ensures |Programmed(ram, list)| == |ram|
    ensures var e := Programmed(ram, list)[i];
            if i < |list| then
              && e.low + 0x1_0000_0000 * e.high == list[i].pointer
              && e.length == list[i].length % 0x1_0000_0000
            else if i == |list| then e == Entry(0, 0, 0)
            else e == ram[i]
  {
    hide Encode;
    if i < |list| {
      EntryRoundTrip(list[i]);
    }
  }

  // The RAM after the first `count` entries were written.
  function PartlyProgrammed(ram: seq<Entry>, list: seq<Segment>, count: nat): (r: seq<Entry>)
    requires count <= |list| < |ram|
    ensures |r| == |ram|
  {
    EncodeAll(list[..count]) + ram[count..]
  }

  lemma ProgramSteps(ram: seq<Entry>, list: seq<Segment>, count: nat)
    requires count <= |list| < |ram|
    ensures PartlyProgrammed(ram, list, 0) == ram
    ensures count < |list| ==>
              PartlyProgrammed(ram, list, count)[count := Encode(list[count])] == PartlyProgrammed(ram, list, count + 1)
    ensures PartlyProgrammed(ram, list, |list|)[|list| := TERMINATOR] == Programmed(ram, list)
  {
    hide Encode;
    assert list[..|list|] == list;
    if count < |list| {
      assert list[..count + 1] == list[..count] + [list[count]];
      EncodeOneMore(list, count);
    }
  }

  lemma EncodeOneMore(list: seq<Segment>, count: nat)
    requires count < |list|
    ensures EncodeAll(list[..count + 1]) == EncodeAll(list[..count]) + [Encode(list[count])]
  {
    hide Encode;
  }

  // Read descriptors until one of length zero.
  function WalkFrom(ram: seq<Entry>, i: nat): seq<Segment>
    requires i <= |ram|
    decreases |ram| - i
  {
    if i == |ram| || ram[i].length == 0 then [] else [Decode(ram[i])] + WalkFrom(ram, i + 1)
  }

  function WalkRam(ram: seq<Entry>): seq<Segment> {
    WalkFrom(ram, 0)
  }

  lemma {:induction false} WalkFromReads(ram: seq<Entry>, list: seq<Segment>, i: nat)
    requires |list| < |ram| && i <= |list| && Positive(list) && Shorter(list, TWO_32)
    ensures WalkFrom(Programmed(ram, list), i) == list[i..]
    decreases |list| - i
  {
    var after := Programmed(ram, list);
    if i < |list| {
      assert list[i] in list && after[i] == Encode(list[i]);
      EntryRoundTrip(list[i]);
      WalkFromReads(ram, list, i + 1);
      assert list[i..] == [list[i]] + list[i + 1..];
    } else {
      assert after[i] == TERMINATOR;
    }
  }

  // From the kernel's table through coalescing, splitting and programming to a walk of the RAM: the same bytes at the
  // same addresses, whatever the RAM held before.
  lemma PipelineKeepsBytes(raw: seq<RawSegment>, page: PageSize, ram: seq<Entry>)
    requires Positive(raw)
    requires |PrepareSgList(Coalesce(raw), page)| < |ram|
    ensures Bytes(WalkRam(Programmed(ram, PrepareSgList(Coalesce(raw), page)))) == Bytes(raw)
  {
    CoalesceKeepsBytes(raw);
    CoalesceBounds(raw);
    PrepareKeepsBytes(Coalesce(raw), page);
    WalkFromReads(ram, PrepareSgList(Coalesce(raw), page), 0);
  }

  // The number of descriptors in the RAM and the entry count the device is given agree for every table whose lengths
  // do not grow along adjacent entries, and in general exactly when no coalesced entry reaches 2^32 bytes.
  lemma EntryCountMatches(raw: seq<RawSegment>, page: PageSize, ram: seq<Entry>)
    requires Positive(raw)
    requires |PrepareSgList(Coalesce(raw), page)| < |ram|
    ensures |WalkRam(Programmed(ram, PrepareSgList(Coalesce(raw), page)))| == |Coalesce(raw)|
       <==> Shorter(Coalesce(raw), TWO_32)
    ensures NonIncreasing(raw) ==> Shorter(Coalesce(raw), TWO_32)
  {
    CoalesceBounds(raw);
    PrepareKeepsBytes(Coalesce(raw), page);
    WalkFromReads(ram, PrepareSgList(Coalesce(raw), page), 0);
    PrepareIsIdentityExactlyWhenShort(Coalesce(raw), page);
    if NonIncreasing(raw) {
      CoalesceFits32(raw);
    }
  }
}
