/** The blocks of the DDR3 replay memory: a header and 15 data words each. */
module Replay {
  import opened Bits
  import opened Remainders
  import opened Words

  const BLOCK_WORDS: nat := 15
  const FULL_MASK: nat := 0x7fff
  const EOE: nat := 0x100
  const END: nat := 0x200
  const DIU_ERROR: nat := 0x400

  datatype Block = Block(header: nat, data: seq<uint32>)

  // An event, and whether it is to be replayed with an error of the detector interface.
  datatype Event = Event(words: seq<uint32>, diuError: bool)

  // Channels 0-5 belong to controller 0, 6-11 to controller 1; within a controller each has one select bit.
  function Controller(channel: nat): nat {
    if channel > 5 then 1 else 0
  }

  function ChannelSelect(channel: nat): nat {
    Pow2(if channel > 5 then channel - 6 else channel)
  }

  // The end-of-event flag goes with the last block of an event, and the other two only appear together with it.
  function Flags(last: bool, diuError: bool, lastEvent: bool): nat {
    if last then EOE + (if diuError then DIU_ERROR else 0) + (if lastEvent then END else 0) else 0
  }

  function Header(mask: nat, flags: nat, channel: nat): nat {
    mask * 0x1_0000 + flags + ChannelSelect(channel)
  }

  // The mask that selects the first n data words.
  function LowMask(n: nat): nat {
    Pow2(n) - 1
  }

  // The mask selects none but the first `length` words.
  ghost predicate MaskWithin(mask: nat, length: nat) {
    forall i {:trigger Bit(mask, i)} :: 0 <= i < BLOCK_WORDS && Bit(mask, i) ==> i < length
  }

  // The block buffer: selected words from the event, the rest as the memory happened to be.
  function Payload(words: seq<uint32>, mask: nat, stale: nat -> uint32): (r: seq<uint32>)
    requires MaskWithin(mask, |words|)
    ensures |r| == BLOCK_WORDS
  {
    seq<uint32>(BLOCK_WORDS, i requires 0 <= i < BLOCK_WORDS => if Bit(mask, i) then words[i] else stale(i))
  }

  lemma {:induction false} MaskBits(n: nat, i: nat)
    ensures Bit(LowMask(n), i) <==> i < n
  {
    if n == 0 {
      NoBits(i);
    } else {
      assert LowMask(n) == 2 * LowMask(n - 1) + 1;
      if i > 0 {
        MaskBits(n - 1, i - 1);
      }
    }
  }

  lemma FullMask()
    ensures FULL_MASK == LowMask(BLOCK_WORDS)
  {
    assert Pow2(5) == 32;
    assert Pow2(10) == 1024;
    assert Pow2(15) == 0x8000;
  }

  lemma MaskFits(n: nat, length: nat)
    requires n <= length
    ensures MaskWithin(LowMask(n), length)
  {
    forall i {:trigger Bit(LowMask(n), i)} | 0 <= i < BLOCK_WORDS && Bit(LowMask(n), i)
      ensures i < length
    {
      MaskBits(n, i);
    }
  }

  // The blocks of one event.
  function EncodeEvent(event: Event, channel: nat, lastEvent: bool, stale: nat -> uint32): seq<Block>
    decreases |event.words|
  {
    var words := event.words;
    if words == [] then []
    else
      var last := |words| <= BLOCK_WORDS;
      var n := if last then |words| else BLOCK_WORDS;
      MaskFits(n, |words|);
      [Block(Header(LowMask(n), Flags(last, event.diuError, lastEvent), channel), Payload(words, LowMask(n), stale))]
      + if last then [] else EncodeEvent(event.(words := words[BLOCK_WORDS..]), channel, lastEvent, stale)
  }

  // What is left of the words after one block.
  function RestOf(words: seq<uint32>): seq<uint32> {
    if |words| < BLOCK_WORDS then [] else words[BLOCK_WORDS..]
  }

  function MaskOf(words: seq<uint32>): nat {
    if |words| <= BLOCK_WORDS then LowMask(|words|) else FULL_MASK
  }

  lemma EncodeStep(event: Event, channel: nat, lastEvent: bool, stale: nat -> uint32)
    ensures MaskWithin(MaskOf(event.words), |event.words|)
    ensures event.words == [] ==> EncodeEvent(event, channel, lastEvent, stale) == []
    ensures event.words != [] ==>
              var flags := Flags(|event.words| <= BLOCK_WORDS, event.diuError, lastEvent);
              EncodeEvent(event, channel, lastEvent, stale)
              == [Block(Header(MaskOf(event.words), flags, channel), Payload(event.words, MaskOf(event.words), stale))]
                 + EncodeEvent(event.(words := RestOf(event.words)), channel, lastEvent, stale)
  {
    hide Pow2, Header, Payload;
    FullMask();
    MaskFits(if |event.words| <= BLOCK_WORDS then |event.words| else BLOCK_WORDS, |event.words|);
  }

  // A run of events, the last one flagged as such.
  function EncodeEvents(events: seq<Event>, channel: nat, stale: nat -> uint32): seq<Block> {
    if events == [] then []
    else EncodeEvent(events[0], channel, |events| == 1, stale) + EncodeEvents(events[1..], channel, stale)
  }

  // -- Reading back ------------------------------------------------------------------------------------------------

  function Selected(mask: nat, data: seq<uint32>): seq<uint32> {
    if data == [] then [] else (if mask % 2 == 1 then [data[0]] else []) + Selected(mask / 2, data[1..])
  }

  predicate Flag(header: nat, flag: nat)
    requires flag > 0
  {
    header / flag % 2 == 1
  }

  // Replay blocks one after the other: the mask selects words, the end-of-event flag closes an event, and the end flag
  // closes the replay.
  function Decode(blocks: seq<Block>, partial: seq<uint32>): seq<Event>
    decreases blocks
  {
    if blocks == [] then []
    else
      var h := blocks[0].header;
      var words := partial + Selected(h / 0x1_0000, blocks[0].data);
      if !Flag(h, EOE) then Decode(blocks[1..], words)
      else [Event(words, Flag(h, DIU_ERROR))] + if Flag(h, END) then [] else Decode(blocks[1..], [])
  }

  lemma {:induction false} SelectedPrefix(n: nat, data: seq<uint32>)
    requires n <= |data|
    ensures Selected(LowMask(n), data) == data[..n]
    decreases |data|
  {
    if n == 0 {
      SelectedNothing(data);
    } else {
      assert LowMask(n) == 2 * LowMask(n - 1) + 1;
      SelectedPrefix(n - 1, data[1..]);
      assert data[..n] == [data[0]] + data[1..][..n - 1];
    }
  }

  lemma {:induction false} SelectedNothing(data: seq<uint32>)
    ensures Selected(0, data) == []
  {
    if data != [] {
      SelectedNothing(data[1..]);
    }
  }

  lemma SelectBounds(channel: nat)
    requires channel <= 11
    ensures ChannelSelect(channel) <= 32
  {
    assert Pow2(1) == 2 && Pow2(2) == 4 && Pow2(3) == 8;
    assert Pow2(4) == 16 && Pow2(5) == 32;
  }

  // The header fields do not overlap.
  lemma HeaderFields(n: nat, last: bool, diuError: bool, lastEvent: bool, channel: nat)
    requires n <= BLOCK_WORDS && channel <= 11
    ensures var h := Header(LowMask(n), Flags(last, diuError, lastEvent), channel);
            && h < TWO_32
            && h / 0x1_0000 == LowMask(n)
            && Flag(h, EOE) == last
            && Flag(h, DIU_ERROR) == (last && diuError)
            && Flag(h, END) == (last && lastEvent)
            && h % 0x100 == ChannelSelect(channel)
  {
    SelectBounds(channel);
    FullMask();
    Pow2Monotone(n, BLOCK_WORDS);
    var e, d, l := if last then 1 else 0, if last && diuError then 1 else 0, if last && lastEvent then 1 else 0;
    HeaderDigits(LowMask(n), d, l, e, ChannelSelect(channel));
  }

  lemma HeaderDigits(mask: nat, d: nat, l: nat, e: nat, select: nat)
    requires mask < 0x8000 && d < 2 && l < 2 && e < 2 && select < 0x100
    ensures var h := mask * 0x1_0000 + d * 0x400 + l * 0x200 + e * 0x100 + select;
            && h < TWO_32 && h / 0x1_0000 == mask && h % 0x100 == select
            && h / 0x100 % 2 == e && h / 0x200 % 2 == l && h / 0x400 % 2 == d
  {
    var h := mask * 0x1_0000 + d * 0x400 + l * 0x200 + e * 0x100 + select;
    var x2 := mask * 0x40 + d;
    var x1 := x2 * 2 + l;
    var x := x1 * 2 + e;
    RemainderUnique(h, x, select, 0x100);
    RemainderUnique(h, x1, e * 0x100 + select, 0x200);
    RemainderUnique(h, x2, l * 0x200 + e * 0x100 + select, 0x400);
    RemainderUnique(h, mask, d * 0x400 + l * 0x200 + e * 0x100 + select, 0x1_0000);
    RemainderUnique(x, x1, e, 2);
    RemainderUnique(x1, x2, l, 2);
    RemainderUnique(x2, mask * 0x20, d, 2);
  }

  // What the first block of an event shows to the decoder.
  lemma FirstBlock(event: Event, channel: nat, lastEvent: bool, stale: nat -> uint32)
    requires event.words != [] && channel <= 11
    ensures var blocks := EncodeEvent(event, channel, lastEvent, stale);
            var last := |event.words| <= BLOCK_WORDS;
            var n := if last then |event.words| else BLOCK_WORDS;
            && blocks != []
            && Selected(blocks[0].header / 0x1_0000, blocks[0].data) == event.words[..n]
            && Flag(blocks[0].header, EOE) == last
            && Flag(blocks[0].header, DIU_ERROR) == (last && event.diuError)
            && Flag(blocks[0].header, END) == (last && lastEvent)
            && blocks[1..] == if last then []
                              else EncodeEvent(event.(words := event.words[BLOCK_WORDS..]), channel, lastEvent, stale)
  {
    hide LowMask, Pow2, Flag, Header, Flags, Payload, Selected;
    var words := event.words;
    var last := |words| <= BLOCK_WORDS;
    var n := if last then |words| else BLOCK_WORDS;
    MaskFits(n, |words|);
    HeaderFields(n, last, event.diuError, lastEvent, channel);
    FirstPayload(words, n, stale);
    SelectedPrefix(n, Payload(words, LowMask(n), stale));
  }

  // One event is read back whole; what follows it is read on from a fresh start, or not at all after the end flag.
  lemma {:induction false} EventIsDecoded(event: Event, partial: seq<uint32>, channel: nat, lastEvent: bool,
                                          stale: nat -> uint32, tail: seq<Block>)
    requires event.words != [] && channel <= 11
    ensures Decode(EncodeEvent(event, channel, lastEvent, stale) + tail, partial)
         == [Event(partial + event.words, event.diuError)] + if lastEvent then [] else Decode(tail, [])
    decreases |event.words|
  {
    hide EncodeEvent, Selected, Flag;
    var words := event.words;
    FirstBlock(event, channel, lastEvent, stale);
    var blocks := EncodeEvent(event, channel, lastEvent, stale);
    assert (blocks + tail)[0] == blocks[0] && (blocks + tail)[1..] == blocks[1..] + tail;
    if |words| <= BLOCK_WORDS {
      assert words[..|words|] == words && blocks[1..] + tail == tail;
    } else {
      var rest := event.(words := words[BLOCK_WORDS..]);
      EventIsDecoded(rest, partial + words[..BLOCK_WORDS], channel, lastEvent, stale, tail);
      assert (partial + words[..BLOCK_WORDS]) + rest.words == partial + words;
    }
  }

  lemma FirstPayload(words: seq<uint32>, n: nat, stale: nat -> uint32)
    requires n <= |words| && n <= BLOCK_WORDS
    requires MaskWithin(LowMask(n), |words|)
    ensures Payload(words, LowMask(n), stale)[..n] == words[..n]
  {
    forall i | 0 <= i < n
      ensures Payload(words, LowMask(n), stale)[i] == words[i]
    {
      MaskBits(n, i);
    }
  }

  // Any list of nonempty events is read back as it was written, whatever the unselected words hold.
  lemma {:induction false} EventsAreDecoded(events: seq<Event>, channel: nat, stale: nat -> uint32)
    requires channel <= 11 && forall e :: e in events ==> e.words != []
    ensures Decode(EncodeEvents(events, channel, stale), []) == events
    decreases events
  {
    if events != [] {
      var tail := EncodeEvents(events[1..], channel, stale);
      EventsAreDecoded(events[1..], channel, stale);
      EventIsDecoded(events[0], [], channel, |events| == 1, stale, tail);
      assert [] + events[0].words == events[0].words;
      assert Event(events[0].words, events[0].diuError) == events[0];
    }
  }

  // An event of n words takes ceil(n / 15) blocks.
  lemma {:induction false} BlockCount(event: Event, channel: nat, lastEvent: bool, stale: nat -> uint32)
    ensures |EncodeEvent(event, channel, lastEvent, stale)| == (|event.words| + 14) / 15
    decreases |event.words|
  {
    if |event.words| > BLOCK_WORDS {
      BlockCount(event.(words := event.words[BLOCK_WORDS..]), channel, lastEvent, stale);
    }
  }

  // -- Channels ------------------------------------------------------------------------------------------------------

  lemma {:induction false} PowerBit(k: nat, i: nat)
    ensures Bit(Pow2(k), i) <==> i == k
  {
    if k == 0 {
      if i > 0 {
        NoBits(i - 1);
      }
    } else if i > 0 {
      PowerBit(k - 1, i - 1);
    }
  }

  lemma {:induction false} LowBits(x: nat, y: nat, k: nat, i: nat)
    requires i < k && x % Pow2(k) == y % Pow2(k)
    ensures Bit(x, i) <==> Bit(y, i)
  {
    HalvesAgree(x, y, Pow2(k - 1));
    if i > 0 {
      LowBits(x / 2, y / 2, k - 1, i - 1);
    }
  }

  lemma HalvesAgree(x: nat, y: nat, m: nat)
    requires m > 0 && x % (2 * m) == y % (2 * m)
    ensures x % 2 == y % 2 && x / 2 % m == y / 2 % m
  {
    HalfRemainder(x, m);
    HalfRemainder(y, m);
  }

  lemma HalfRemainder(x: nat, m: nat)
    requires m > 0
    ensures x % 2 == x % (2 * m) % 2 && x / 2 % m == x % (2 * m) / 2
  {
    var q, r := x / (2 * m), x % (2 * m);
    assert x == q * (2 * m) + r == 2 * (q * m + r / 2) + r % 2;
    assert r / 2 < m;
    RemainderUnique(x, q * m + r / 2, r % 2, 2);
    RemainderUnique(x / 2, q, r / 2, m);
  }

  // Of the low eight bits of a header exactly one is set: the one of the channel within its controller, of which each
  // serves six channels. Bits 8 to 10 are end of event, end of replay and interface error.
  lemma HeaderBits(n: nat, last: bool, diuError: bool, lastEvent: bool, channel: nat)
    requires n <= BLOCK_WORDS && channel <= 11
    ensures var h := Header(LowMask(n), Flags(last, diuError, lastEvent), channel);
            && (forall i :: 0 <= i < 8 ==> (Bit(h, i) <==> i == channel % 6))
            && h / 0x100 % 2 == (if last then 1 else 0)
            && h / 0x200 % 2 == (if last && lastEvent then 1 else 0)
            && h / 0x400 % 2 == (if last && diuError then 1 else 0)
    ensures Controller(channel) == channel / 6
  {
    hide Bit, Pow2, LowMask;
    HeaderFields(n, last, diuError, lastEvent, channel);
    SelectBounds(channel);
    var h := Header(LowMask(n), Flags(last, diuError, lastEvent), channel);
    Powers();
    forall i | 0 <= i < 8
      ensures Bit(h, i) <==> i == channel % 6
    {
      LowBits(h, ChannelSelect(channel), 8, i);
      PowerBit(if channel > 5 then channel - 6 else channel, i);
    }
  }

  function WithBit(blocks: seq<Block>, i: nat): seq<Block> {
    if blocks == [] then [] else (if Bit(blocks[0].header, i) then [blocks[0]] else []) + WithBit(blocks[1..], i)
  }

  // What one channel replays: the blocks whose select bit is its own.
  function BlocksFor(blocks: seq<Block>, channel: nat): seq<Block> {
    WithBit(blocks, channel % 6)
  }

  lemma {:induction false} WithBitAppend(a: seq<Block>, b: seq<Block>, i: nat)
    ensures WithBit(a + b, i) == WithBit(a, i) + WithBit(b, i)
  {
    hide Bit, WithBit;
    WithBitUnfold(a, i);
    WithBitUnfold(a + b, i);
    if a == [] {
      assert a + b == b;
    } else {
      assert (a + b)[0] == a[0] && (a + b)[1..] == a[1..] + b;
      WithBitAppend(a[1..], b, i);
    }
  }

  lemma WithBitUnfold(blocks: seq<Block>, i: nat)
    ensures blocks == [] ==> WithBit(blocks, i) == []
    ensures blocks != [] ==>
              var own := if Bit(blocks[0].header, i) then [blocks[0]] else [];
              WithBit(blocks, i) == own + WithBit(blocks[1..], i)
  {
    hide Bit;
  }

  lemma BlocksForAppend(a: seq<Block>, b: seq<Block>, channel: nat)
    ensures BlocksFor(a + b, channel) == BlocksFor(a, channel) + BlocksFor(b, channel)
  {
    hide WithBit;
    WithBitAppend(a, b, channel % 6);
  }

  lemma BlocksForUnfold(blocks: seq<Block>, channel: nat)
    ensures blocks == [] ==> BlocksFor(blocks, channel) == []
    ensures blocks != [] ==>
              BlocksFor(blocks, channel)
              == (if Bit(blocks[0].header, channel % 6) then [blocks[0]] else []) + BlocksFor(blocks[1..], channel)
  {
    hide Bit;
  }

  // All blocks of an event are for its own channel.
  lemma {:induction false} EventIsForItsChannel(event: Event, channel: nat, lastEvent: bool, stale: nat -> uint32,
                                                other: nat)
    requires channel <= 11 && other <= 11 && channel / 6 == other / 6
    ensures BlocksFor(EncodeEvent(event, channel, lastEvent, stale), other)
         == if other == channel then EncodeEvent(event, channel, lastEvent, stale) else []
    decreases |event.words|
  {
    hide Bit, Pow2, LowMask, Header, Flags, Payload, BlocksFor;
    var words := event.words;
    BlocksForUnfold(EncodeEvent(event, channel, lastEvent, stale), other);
    BlocksForUnfold([], other);
    if words != [] {
      var last := |words| <= BLOCK_WORDS;
      var n := if last then |words| else BLOCK_WORDS;
      MaskFits(n, |words|);
      HeaderBits(n, last, event.diuError, lastEvent, channel);
      SameSelect(channel, other);
      var blocks := EncodeEvent(event, channel, lastEvent, stale);
      assert Bit(blocks[0].header, other % 6) <==> other == channel;
      if last {
        assert blocks[1..] == [];
      } else {
        EventIsForItsChannel(event.(words := words[BLOCK_WORDS..]), channel, lastEvent, stale, other);
      }
    }
  }

  lemma SameSelect(channel: nat, other: nat)
    requires channel / 6 == other / 6
    ensures channel % 6 == other % 6 <==> channel == other
  {
  }

  // Events for several channels, written one after the other.
  datatype Write = Write(channel: nat, event: Event)

  ghost predicate OnController(ws: seq<Write>, controller: nat) {
    forall w :: w in ws ==> w.channel <= 11 && w.channel / 6 == controller && w.event.words != []
  }

  predicate Mentions(ws: seq<Write>, channel: nat) {
    exists w :: w in ws && w.channel == channel
  }

  function EventsFor(ws: seq<Write>, channel: nat): seq<Event> {
    if ws == [] then []
    else (if ws[0].channel == channel then [ws[0].event] else []) + EventsFor(ws[1..], channel)
  }

  // The last event of each channel is flagged as such.
  function EncodeWrites(ws: seq<Write>, stale: nat -> uint32): seq<Block> {
    if ws == [] then []
    else
      EncodeEvent(ws[0].event, ws[0].channel, !Mentions(ws[1..], ws[0].channel), stale) + EncodeWrites(ws[1..], stale)
  }

  lemma {:induction false} MentionedHasEvents(ws: seq<Write>, channel: nat)
    ensures Mentions(ws, channel) <==> EventsFor(ws, channel) != []
  {
    if ws != [] {
      MentionedHasEvents(ws[1..], channel);
      assert forall w :: w in ws <==> w == ws[0] || w in ws[1..];
    }
  }

  // Each channel's blocks are those its own events alone would give.
  lemma {:induction false} ChannelSeesItsEvents(ws: seq<Write>, controller: nat, channel: nat, stale: nat -> uint32)
    requires OnController(ws, controller) && channel <= 11 && channel / 6 == controller
    ensures BlocksFor(EncodeWrites(ws, stale), channel) == EncodeEvents(EventsFor(ws, channel), channel, stale)
  {
    hide *;
    if ws == [] {
      NoWrites(channel, stale);
    } else {
      var w, rest := ws[0], ws[1..];
      WritesUnfold(ws, controller, channel, stale);
      ChannelSeesItsEvents(rest, controller, channel, stale);
      MentionedHasEvents(rest, channel);
      var first := EncodeEvent(w.event, w.channel, !Mentions(rest, w.channel), stale);
      EventIsForItsChannel(w.event, w.channel, !Mentions(rest, w.channel), stale, channel);
      BlocksForAppend(first, EncodeWrites(rest, stale), channel);
      if w.channel == channel {
        var events := EventsFor(rest, channel);
        EventsUnfold(w.event, events, channel, stale);
      } else {
        assert [] + EncodeEvents(EventsFor(rest, channel), channel, stale)
            == EncodeEvents(EventsFor(rest, channel), channel, stale);
      }
    }
  }

  lemma NoWrites(channel: nat, stale: nat -> uint32)
    ensures BlocksFor(EncodeWrites([], stale), channel) == EncodeEvents(EventsFor([], channel), channel, stale)
  {
  }

  lemma WritesUnfold(ws: seq<Write>, controller: nat, channel: nat, stale: nat -> uint32)
    requires ws != [] && OnController(ws, controller)
    ensures OnController(ws[1..], controller) && ws[0].channel <= 11 && ws[0].channel / 6 == controller
    ensures EncodeWrites(ws, stale)
         == EncodeEvent(ws[0].event, ws[0].channel, !Mentions(ws[1..], ws[0].channel), stale)
            + EncodeWrites(ws[1..], stale)
    ensures EventsFor(ws, channel)
         == if ws[0].channel == channel then [ws[0].event] + EventsFor(ws[1..], channel)
            else EventsFor(ws[1..], channel)
  {
    hide EncodeEvent, Mentions;
    assert ws[0] in ws && forall v :: v in ws[1..] ==> v in ws;
    assert [] + EventsFor(ws[1..], channel) == EventsFor(ws[1..], channel);
  }

  lemma EventsUnfold(event: Event, events: seq<Event>, channel: nat, stale: nat -> uint32)
    ensures EncodeEvents([event] + events, channel, stale)
         == EncodeEvent(event, channel, events == [], stale) + EncodeEvents(events, channel, stale)
  {
    hide EncodeEvent;
    assert ([event] + events)[1..] == events;
  }

  // However writes for the channels of a controller are interleaved, each channel replays exactly its own events.
  lemma ChannelsReplayTheirEvents(ws: seq<Write>, controller: nat, channel: nat, stale: nat -> uint32)
    requires OnController(ws, controller) && channel <= 11 && channel / 6 == controller
    ensures Decode(BlocksFor(EncodeWrites(ws, stale), channel), []) == EventsFor(ws, channel)
  {
    ChannelSeesItsEvents(ws, controller, channel, stale);
    EventsAreNonempty(ws, controller, channel);
    EventsAreDecoded(EventsFor(ws, channel), channel, stale);
  }

  lemma {:induction false} EventsAreNonempty(ws: seq<Write>, controller: nat, channel: nat)
    requires OnController(ws, controller)
    ensures forall e :: e in EventsFor(ws, channel) ==> e.words != []
  {
    if ws != [] {
      assert ws[0] in ws && forall v :: v in ws[1..] ==> v in ws;
      EventsAreNonempty(ws[1..], controller, channel);
    }
  }
}
