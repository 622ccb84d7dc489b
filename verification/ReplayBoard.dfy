/** The board's replay memory, and the calls that fill it. */
module ReplayBoard {
  import opened Bits
  import opened Remainders
  import opened Words
  import opened Replay

  const TIMEOUT: nat := 10000
  const BLOCK_UNITS: nat := 8
  // As many blocks as the 31-bit address register can tell apart.
  const MAX_BLOCKS: nat := 0x1000_0000

  datatype Result = Success(next: uint32) | InvalidChannel | WriteTimeout

  // Where a block lands: the control register keeps bits 30 to 2 of the address.
  function Address(addr: nat): nat {
    addr % 0x8000_0000 / 4 * 4
  }

  type Memory = map<(nat, nat), Block>

  function NextAddress(addr: nat): uint32 {
    (addr + BLOCK_UNITS) % TWO_32
  }

  function Store(ram: Memory, controller: nat, addr: nat, blocks: seq<Block>): Memory
    decreases blocks
  {
    if blocks == [] then ram
    else Store(ram[(controller, Address(addr)) := blocks[0]], controller, NextAddress(addr), blocks[1..])
  }

  function Load(ram: Memory, controller: nat, addr: nat, n: nat): seq<Block>
    decreases n
  {
    if n == 0 then []
    else
      var key := (controller, Address(addr));
      [if key in ram then ram[key] else Block(0, [])] + Load(ram, controller, NextAddress(addr), n - 1)
  }

  function AddressAfter(addr: nat, blocks: nat): uint32 {
    (addr + BLOCK_UNITS * blocks) % TWO_32
  }

  lemma {:induction false} StoreAppend(ram: Memory, controller: nat, addr: nat, a: seq<Block>, b: seq<Block>)
    requires addr < TWO_32
    ensures Store(ram, controller, addr, a + b)
         == Store(Store(ram, controller, addr, a), controller, AddressAfter(addr, |a|), b)
    decreases a
  {
    hide Address, NextAddress, AddressAfter;
    if a == [] {
      assert a + b == b;
      AddressAfterNone(addr);
    } else {
      assert (a + b)[0] == a[0] && (a + b)[1..] == a[1..] + b;
      StoreAppend(ram[(controller, Address(addr)) := a[0]], controller, NextAddress(addr), a[1..], b);
      AddressAfterStep(addr, |a|);
    }
  }

  lemma AddressAfterNone(addr: nat)
    requires addr < TWO_32
    ensures AddressAfter(addr, 0) == addr
  {
  }

  lemma AddressAfterStep(addr: nat, n: nat)
    requires n > 0
    ensures AddressAfter(NextAddress(addr), n - 1) == AddressAfter(addr, n)
  {
  }

  // Within the reach of the address register, no two blocks of a run share an address.
  lemma AddressesDiffer(addr: nat, i: nat)
    requires 0 < i < MAX_BLOCKS
    ensures Address(AddressAfter(addr, i)) != Address(addr)
  {
    var s := addr + BLOCK_UNITS * i;
    var x, y := addr % 0x8000_0000, s % 0x8000_0000;
    RemainderOfRemainder(s, 0x8000_0000, 2);
    if x / 4 == y / 4 {
      SameAddressMeansFullTurn(addr, i);
      assert false;
    }
  }

  lemma SameParts(x: nat, y: nat)
    requires x / 4 == y / 4 && x % 4 == y % 4
    ensures x == y
  {
  }

  // Equal control words mean equal remainders: blocks keep the address modulo 4.
  lemma SameAddressMeansSameRemainder(addr: nat, i: nat)
    requires addr % 0x8000_0000 / 4 == (addr + BLOCK_UNITS * i) % 0x8000_0000 / 4
    ensures addr % 0x8000_0000 == (addr + BLOCK_UNITS * i) % 0x8000_0000
  {
    var s := addr + BLOCK_UNITS * i;
    RemainderOfRemainder(addr, 4, 0x2000_0000);
    RemainderOfRemainder(s, 4, 0x2000_0000);
    RemainderUnique(s, addr / 4 + 2 * i, addr % 4, 4);
    SameParts(addr % 0x8000_0000, s % 0x8000_0000);
  }

  lemma WholeTurns(i: nat, turns: int)
    requires BLOCK_UNITS * i == turns * 0x8000_0000
    ensures i % MAX_BLOCKS == 0
  {
    RemainderUnique(i, turns, 0, MAX_BLOCKS);
  }

  lemma SameAddressMeansFullTurn(addr: nat, i: nat)
    requires addr % 0x8000_0000 / 4 == (addr + BLOCK_UNITS * i) % 0x8000_0000 / 4
    ensures i % MAX_BLOCKS == 0
  {
    SameAddressMeansSameRemainder(addr, i);
    var s := addr + BLOCK_UNITS * i;
    var x, p, q := addr % 0x8000_0000, addr / 0x8000_0000, s / 0x8000_0000;
    assert addr == p * 0x8000_0000 + x && s == q * 0x8000_0000 + x;
    WholeTurns(i, q - p);
  }

  // A run of blocks changes its own addresses only.
  lemma {:induction false} StoreKeeps(ram: Memory, controller: nat, addr: nat, blocks: seq<Block>, key: (nat, nat))
    requires addr < TWO_32
    requires forall i :: 0 <= i < |blocks| ==> key != (controller, Address(AddressAfter(addr, i)))
    ensures var after := Store(ram, controller, addr, blocks);
            (key in after <==> key in ram) && (key in ram ==> after[key] == ram[key])
    decreases blocks
  {
    if blocks != [] {
      assert AddressAfter(addr, 0) == addr;
      forall i | 0 <= i < |blocks[1..]|
        ensures key != (controller, Address(AddressAfter(NextAddress(addr), i)))
      {
        AddressAfterStep(addr, i + 1);
      }
      StoreKeeps(ram[(controller, Address(addr)) := blocks[0]], controller, NextAddress(addr), blocks[1..], key);
    }
  }

  // What was stored is what is loaded.
  lemma {:induction false} LoadStore(ram: Memory, controller: nat, addr: nat, blocks: seq<Block>)
    requires addr < TWO_32 && |blocks| <= MAX_BLOCKS
    ensures Load(Store(ram, controller, addr, blocks), controller, addr, |blocks|) == blocks
    decreases blocks
  {
    if blocks != [] {
      var key := (controller, Address(addr));
      var first := ram[key := blocks[0]];
      LoadStore(first, controller, NextAddress(addr), blocks[1..]);
      forall i | 0 <= i < |blocks[1..]|
        ensures key != (controller, Address(AddressAfter(NextAddress(addr), i)))
      {
        AddressAfterStep(addr, i + 1);
        AddressesDiffer(addr, i + 1);
      }
      StoreKeeps(first, controller, NextAddress(addr), blocks[1..], key);
    }
  }

  // Block i of a run is 8 * i units behind the start.
  lemma {:induction false} BlockIsAt(ram: Memory, controller: nat, addr: nat, blocks: seq<Block>, i: nat)
    requires addr % 4 == 0 && addr + 8 * |blocks| <= 0x8000_0000 && i < |blocks|
    ensures var after := Store(ram, controller, addr, blocks);
            (controller, addr + 8 * i) in after && after[(controller, addr + 8 * i)] == blocks[i]
    decreases blocks
  {
    var key := (controller, addr);
    AddressInReach(addr);
    if i > 0 {
      BlockIsAt(ram[key := blocks[0]], controller, addr + 8, blocks[1..], i - 1);
    } else {
      forall j | 0 <= j < |blocks[1..]|
        ensures key != (controller, Address(AddressAfter(NextAddress(addr), j)))
      {
        AddressInReach(addr + 8 + 8 * j);
      }
      StoreKeeps(ram[key := blocks[0]], controller, NextAddress(addr), blocks[1..], key);
    }
  }

  lemma AddressInReach(addr: nat)
    requires addr % 4 == 0 && addr < 0x8000_0000
    ensures Address(addr) == addr && NextAddress(addr) == addr + 8 && AddressAfter(addr, 0) == addr
  {
  }

  // The memory after writing events one by one, each at the address the previous call returned.
  ghost function StoreEvents(ram: Memory, addr: nat, events: seq<Event>, channel: nat, stale: nat -> uint32): Memory
    decreases events
  {
    if events == [] then ram
    else
      var blocks := EncodeEvent(events[0], channel, |events| == 1, stale);
      StoreEvents(Store(ram, Controller(channel), addr, blocks), AddressAfter(addr, |blocks|), events[1..], channel,
                  stale)
  }

  lemma {:induction false} EventsAreConsecutive(ram: Memory, addr: nat, events: seq<Event>, channel: nat,
                                                stale: nat -> uint32)
    requires addr < TWO_32
    ensures StoreEvents(ram, addr, events, channel, stale)
         == Store(ram, Controller(channel), addr, EncodeEvents(events, channel, stale))
    decreases events
  {
    if events != [] {
      hide Store, AddressAfter;
      var blocks := EncodeEvent(events[0], channel, |events| == 1, stale);
      var rest := EncodeEvents(events[1..], channel, stale);
      var next := AddressAfter(addr, |blocks|);
      AddressIsWord(addr, |blocks|);
      StoreAppend(ram, Controller(channel), addr, blocks, rest);
      EventsAreConsecutive(Store(ram, Controller(channel), addr, blocks), next, events[1..], channel, stale);
    }
  }

  lemma AddressIsWord(addr: nat, n: nat)
    ensures AddressAfter(addr, n) < TWO_32
  {
  }

  // Such events are replayed as they were written: their blocks are disjoint and consecutive, and reading them back
  // gives the same list.
  lemma ReplayRoundTrip(ram: Memory, addr: nat, events: seq<Event>, channel: nat, stale: nat -> uint32)
    requires addr < TWO_32 && channel <= 11 && forall e :: e in events ==> e.words != []
    requires |EncodeEvents(events, channel, stale)| <= MAX_BLOCKS
    ensures var after := StoreEvents(ram, addr, events, channel, stale);
            Decode(Load(after, Controller(channel), addr, |EncodeEvents(events, channel, stale)|), []) == events
  {
    EventsAreConsecutive(ram, addr, events, channel, stale);
    LoadStore(ram, Controller(channel), addr, EncodeEvents(events, channel, stale));
    EventsAreDecoded(events, channel, stale);
  }

  // -- Several channels ----------------------------------------------------------------------------------------------

  // The memory after writes for the channels of one controller, each at the address the previous call returned.
  ghost function StoreWrites(ram: Memory, controller: nat, addr: nat, ws: seq<Write>, stale: nat -> uint32): Memory
    decreases ws
  {
    if ws == [] then ram
    else
      var blocks := EncodeEvent(ws[0].event, ws[0].channel, !Mentions(ws[1..], ws[0].channel), stale);
      StoreWrites(Store(ram, controller, addr, blocks), controller, AddressAfter(addr, |blocks|), ws[1..], stale)
  }

  lemma {:induction false} WritesAreConsecutive(ram: Memory, controller: nat, addr: nat, ws: seq<Write>,
                                                stale: nat -> uint32)
    requires addr < TWO_32
    ensures StoreWrites(ram, controller, addr, ws, stale) == Store(ram, controller, addr, EncodeWrites(ws, stale))
    decreases ws
  {
    if ws != [] {
      hide Store, AddressAfter, EncodeEvent, Mentions;
      var blocks := EncodeEvent(ws[0].event, ws[0].channel, !Mentions(ws[1..], ws[0].channel), stale);
      StoreAppend(ram, controller, addr, blocks, EncodeWrites(ws[1..], stale));
      WritesAreConsecutive(Store(ram, controller, addr, blocks), controller, AddressAfter(addr, |blocks|), ws[1..],
                           stale);
    }
  }

  // Interleaved in one memory, each channel of the controller still replays exactly its own events.
  lemma InterleavedReplay(ram: Memory, controller: nat, addr: nat, ws: seq<Write>, channel: nat, stale: nat -> uint32)
    requires addr < TWO_32 && OnController(ws, controller) && channel <= 11 && channel / 6 == controller
    requires |EncodeWrites(ws, stale)| <= MAX_BLOCKS
    ensures var after := StoreWrites(ram, controller, addr, ws, stale);
            var blocks := Load(after, controller, addr, |EncodeWrites(ws, stale)|);
            Decode(BlocksFor(blocks, channel), []) == EventsFor(ws, channel)
  {
    hide *;
    WritesAreConsecutive(ram, controller, addr, ws, stale);
    LoadStore(ram, controller, addr, EncodeWrites(ws, stale));
    ChannelsReplayTheirEvents(ws, controller, channel, stale);
  }

  // The two controllers have memories of their own.
  lemma {:induction false} OtherControllerKeeps(ram: Memory, controller: nat, addr: nat, blocks: seq<Block>,
                                                other: nat, from: nat, n: nat)
    requires addr < TWO_32 && other != controller
    ensures Load(Store(ram, controller, addr, blocks), other, from, n) == Load(ram, other, from, n)
    decreases n
  {
    hide Store, Address, NextAddress;
    if n > 0 {
      StoreKeeps(ram, controller, addr, blocks, (other, Address(from)));
      OtherControllerKeeps(ram, controller, addr, blocks, other, NextAddress(from), n - 1);
    }
  }

  // A block of 16 words takes eight address units; the memory address is the start rounded down to a multiple of four,
  // within 31 bits.
  lemma AddressOfEvent(event: Event, channel: nat, lastEvent: bool, stale: nat -> uint32, start: uint32)
    ensures AddressAfter(start, |EncodeEvent(event, channel, lastEvent, stale)|)
         == (start + 8 * ((|event.words| + 14) / 15)) % 0x1_0000_0000
    ensures start < 0x8000_0000 ==> Address(start) == start - start % 4
  {
    hide EncodeEvent;
    BlockCount(event, channel, lastEvent, stale);
  }

  class Board {
    // what unselected words of a block hold, and how many polls the k-th block write takes
    const stale: nat -> uint32
    const delay: nat -> nat
    var ram: Memory
    var writes: nat

    constructor (stale: nat -> uint32, delay: nat -> nat)
      ensures this.stale == stale && this.delay == delay && ram == map[] && writes == 0
    {
      this.stale, this.delay := stale, delay;
      ram, writes := map[], 0;
    }

    // A block is in the memory even when its acknowledge comes too late.
    method BlockToRam(addr: uint32, words: seq<uint32>, mask: nat, channel: nat, flags: nat) returns (result: Result)
      requires MaskWithin(mask, |words|)
      modifies `ram, `writes
      ensures channel > 11 ==> result == InvalidChannel && ram == old(ram) && writes == old(writes)
      ensures channel <= 11 ==>
                && ram == old(ram)[(Controller(channel), Address(addr)) :=
                                   Block(Header(mask, flags, channel), Payload(words, mask, stale))]
                && writes == old(writes) + 1
                && result == if delay(old(writes)) <= 10000 then Success(addr) else WriteTimeout
    {
      if channel > 11 {
        return InvalidChannel;
      }
      var controller := if channel > 5 then 1 else 0;
      var select := if controller == 1 then Pow2(channel - 6) else Pow2(channel);
      var header := mask * 0x1_0000 + flags + select;
      var control := Address(addr);
      ram := ram[(controller, control) := Block(header, Payload(words, mask, stale))];
      var polls := delay(writes);
      writes := writes + 1;
      var timeout: nat := TIMEOUT;
      while polls > 0
        invariant timeout + delay(old(writes)) == TIMEOUT + polls
        decreases polls
      {
        if timeout == 0 {
          return WriteTimeout;
        }
        timeout := timeout - 1;
        polls := polls - 1;
      }
      result := Success(addr);
    }

    // Write one event block by block. An event of no words writes nothing, whatever the channel.
    method EventToRam(event: Event, start: uint32, channel: nat, lastEvent: bool)
      returns (result: Result, ghost done: nat)
      modifies `ram, `writes
      ensures event.words == [] ==> result == Success(start) && ram == old(ram) && writes == old(writes)
      ensures event.words != [] && channel > 11 ==> result == InvalidChannel && ram == old(ram)
      ensures channel <= 11 ==>
                var blocks := EncodeEvent(event, channel, lastEvent, stale);
                && done <= |blocks| && writes == old(writes) + done
                && ram == Store(old(ram), Controller(channel), start, blocks[..done])
                && (forall k :: old(writes) <= k < writes - 1 ==> delay(k) <= 10000)
                && (if result == WriteTimeout then done > 0 && delay(writes - 1) > 10000
                    else
                      && done == |blocks| && result == Success(AddressAfter(start, done))
                      && (done > 0 ==> delay(writes - 1) <= 10000))
    {
      hide EncodeEvent, Store, Payload, Header, AddressAfter, MaskWithin, Pow2;
      done := 0;
      var addr: uint32, words: seq<uint32>, mask: nat, flags: nat := start, event.words, FULL_MASK, 0;
      ghost var blocks := EncodeEvent(event, channel, lastEvent, stale);
      StoreNothing(ram, Controller(channel), start, blocks);
      EncodeStep(event, channel, lastEvent, stale);
      while |words| > 0
        invariant done <= |blocks| && writes == old(writes) + done && addr == AddressAfter(start, done)
        invariant blocks[done..] == EncodeEvent(event.(words := words), channel, lastEvent, stale)
        invariant channel > 11 ==> ram == old(ram) && words == event.words
        invariant channel <= 11 ==> ram == Store(old(ram), Controller(channel), start, blocks[..done])
        invariant forall k :: old(writes) <= k < writes ==> delay(k) <= TIMEOUT
        invariant words != [] ==> flags == 0 && mask == FULL_MASK
        invariant words == [] ==> done == |blocks|
        decreases |words|
      {
        NextBlock(event, words, channel, lastEvent, stale, blocks, done);
        if |words| <= BLOCK_WORDS {
          mask := Pow2(|words|) - 1;
          flags := flags + EOE;
          if event.diuError {
            flags := flags + DIU_ERROR;
          }
          if lastEvent {
            flags := flags + END;
          }
        }
        result := BlockToRam(addr, words, mask, channel, flags);
        if result == InvalidChannel {
          return;
        }
        StoreOneMore(old(ram), Controller(channel), start, blocks, done);
        done := done + 1;
        if result == WriteTimeout {
          return;
        }
        addr := NextAddress(addr);
        words := if |words| < BLOCK_WORDS then [] else words[BLOCK_WORDS..];
      }
      assert blocks[..done] == blocks;
      result := Success(addr);
    }
  }

  // The next block of an event of which `done` blocks are written.
  lemma NextBlock(event: Event, words: seq<uint32>, channel: nat, lastEvent: bool, stale: nat -> uint32,
                  blocks: seq<Block>, done: nat)
    requires done <= |blocks| && words != []
    requires blocks[done..] == EncodeEvent(event.(words := words), channel, lastEvent, stale)
    ensures MaskWithin(MaskOf(words), |words|) && done < |blocks|
    ensures var flags := Flags(|words| <= BLOCK_WORDS, event.diuError, lastEvent);
            blocks[done] == Block(Header(MaskOf(words), flags, channel), Payload(words, MaskOf(words), stale))
    ensures blocks[done + 1..] == EncodeEvent(event.(words := RestOf(words)), channel, lastEvent, stale)
    ensures RestOf(words) == [] ==> done + 1 == |blocks|
  {
    hide EncodeEvent, MaskWithin, MaskOf, Flags, Header, Payload;
    EncodeStep(event.(words := words), channel, lastEvent, stale);
    EncodeStep(event.(words := RestOf(words)), channel, lastEvent, stale);
    assert blocks[done..][0] == blocks[done] && blocks[done..][1..] == blocks[done + 1..];
  }

  lemma StoreNothing(ram: Memory, controller: nat, addr: uint32, blocks: seq<Block>)
    ensures Store(ram, controller, addr, blocks[..0]) == ram && AddressAfter(addr, 0) == addr
    ensures blocks[0..] == blocks
  {
  }

  lemma StoreOne(ram: Memory, controller: nat, addr: uint32, block: Block)
    ensures Store(ram, controller, addr, [block]) == ram[(controller, Address(addr)) := block]
  {
    hide Address, NextAddress;
    var after := ram[(controller, Address(addr)) := block];
    assert [block][1..] == [];
    assert Store(after, controller, NextAddress(addr), []) == after;
  }

  lemma NextIsOneAfter(addr: uint32, done: nat)
    ensures NextAddress(AddressAfter(addr, done)) == AddressAfter(addr, done + 1)
  {
  }

  lemma StoreOneMore(ram: Memory, controller: nat, addr: uint32, blocks: seq<Block>, done: nat)
    requires done < |blocks|
    ensures var key := (controller, Address(AddressAfter(addr, done)));
            Store(ram, controller, addr, blocks[..done])[key := blocks[done]]
            == Store(ram, controller, addr, blocks[..done + 1])
    ensures NextAddress(AddressAfter(addr, done)) == AddressAfter(addr, done + 1)
  {
    hide *;
    NextIsOneAfter(addr, done);
    StoreOne(Store(ram, controller, addr, blocks[..done]), controller, AddressAfter(addr, done), blocks[done]);
    assert blocks[..done + 1] == blocks[..done] + [blocks[done]];
    StoreAppend(ram, controller, addr, blocks[..done], [blocks[done]]);
  }
}
