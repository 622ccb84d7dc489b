/** The monitor of the transmit interface: packets on the wire become messages to the host. */
module TrnMonitor {
  import opened Words
  import opened ByteOrder
  import opened Tlp
  import opened Options

  // The packet being received: how many words are still to come, the size its message was announced with, and the
  // message body so far.
  datatype Reception = Idle | Receiving(left: int, size: nat, id: uint32, body: seq<uint32>)

  // One rising clock edge: a beat if both sides were ready, the two acknowledge lines, and the id of the command that
  // is being served at this moment.
  datatype Clock = Clock(beat: Option<Beat>, id: uint32, writeDone: bool, cmplDone: bool)

  // The payload words of a beat in host byte order.
  function Payload(b: Beat): seq<uint32> {
    [Swap32(High32(b.high)), Swap32(Low32(b.high)), Swap32(High32(b.low)), Swap32(Low32(b.low))]
  }

  // How many of them count: on the last beat those that trem leaves, else all.
  function Taken(b: Beat): nat {
    if b.trem != 0 && b.eof then (if b.trem <= 3 then 4 - b.trem else 0) else 4
  }

  // The buffer that is sent has the announced size, whatever was copied into it.
  function Fit(body: seq<uint32>, size: nat): (r: seq<uint32>)
    ensures |r| == size
    ensures |body| == size ==> r == body
  {
    seq<uint32>(size, i requires 0 <= i < size => if i < |body| then body[i] else 0)
  }

  function AfterData(r: Reception, b: Beat): (Reception, seq<Message>)
    requires r.Receiving?
  {
    var left := r.left - Taken(b);
    var body := r.body + Payload(b)[..Taken(b)];
    if (left == 0) != b.eof || left < 0 then (Idle, [])
    else if b.eof then (Idle, [Message(CMD_WRITE_TO_HOST, r.id, Fit(body, r.size))])
    else (r.(left := left, body := body), [])
  }

  function AfterHeader(b: Beat, id: uint32): (Reception, seq<Message>) {
    var header0, header1 := High32(b.high), Low32(b.high);
    var length := header0 % 0x400;
    var fmt := header0 / 0x100_0000 % 0x80;
    if fmt == FMT_MWR64 then
      (Receiving(length, length + 2, id, [High32(b.low), Low32(b.low)]), [])
    else if fmt == FMT_MWR32 then
      (Receiving(length - 1, length + 2, id, [0, High32(b.low), Swap32(Low32(b.low))]), [])
    else if fmt == FMT_MRD64 then
      (Idle, [Message(CMD_READ_FROM_HOST, id,
                      [High32(b.low), Low32(b.low), header1 / 0x1_0000, length * 0x1_0000 + header1 % 0x1_0000])])
    else if fmt == FMT_MRD32 then
      (Idle, [Message(CMD_READ_FROM_HOST, id,
                      [0, High32(b.low), header1 / 0x1_0000, length * 0x1_0000 + header1 % 0x1_0000])])
    else if fmt == FMT_CMPLD then
      (Idle, [Message(CMD_CMPL_TO_HOST, id,
                      [header1 % 0x1_0000 * 0x1_0000 + High32(b.low) % 0x1_0000, Swap32(Low32(b.low))])])
    else (Idle, [])
  }

  // Data of the packet under way comes first; a header is looked for once no packet is.
  function AfterBeat(r: Reception, b: Beat, id: uint32): (Reception, seq<Message>) {
    if r.Receiving? then
      var (s, ms) := AfterData(r, b);
      if b.sof && s.Idle? then
        var (t, ns) := AfterHeader(b, id);
        (t, ms + ns)
      else (s, ms)
    else if b.sof then AfterHeader(b, id)
    else (r, [])
  }

  function Acknowledgements(c: Clock): seq<Message> {
    (if c.writeDone then [Message(CMD_ACK_WRITE, c.id, [])] else [])
    + (if c.cmplDone then [Message(CMD_ACK_CMPL, c.id, [])] else [])
  }

  function AfterClock(r: Reception, c: Clock): (Reception, seq<Message>) {
    var (s, ms) := if c.beat.Some? then AfterBeat(r, c.beat.value, c.id) else (r, []);
    (s, ms + Acknowledgements(c))
  }

  function Run(r: Reception, clocks: seq<Clock>): (Reception, seq<Message>)
    decreases clocks
  {
    if clocks == [] then (r, [])
    else
      var (s, ms) := AfterClock(r, clocks[0]);
      var (t, ns) := Run(s, clocks[1..]);
      (t, ms + ns)
  }

  // The monitor itself, on the state it keeps between clock edges.
  class TrnMonitor {
    var receiving: bool
    var left: int
    var bufferSize: nat
    var bufferId: uint32
    var buffer: seq<uint32>
    var sent: seq<Message>

    constructor ()
      ensures State() == Idle && sent == []
    {
      receiving, left, bufferSize, bufferId, buffer, sent := false, 0, 0, 0, [], [];
    }

    function State(): Reception
      reads this
    {
      if receiving then Receiving(left, bufferSize, bufferId, buffer) else Idle
    }

    method PayloadWords(b: Beat) returns (words: seq<uint32>)
      ensures words == Payload(b)
    {
      ReorderSwapsHalves(High32(b.high), Low32(b.high));
      ReorderSwapsHalves(High32(b.low), Low32(b.low));
      hide ByteReorder, Swap32;
      var data := ByteReorder(b.high);
      words := [data % TWO_32, data / TWO_32];
      data := ByteReorder(b.low);
      words := words + [data % TWO_32, data / TWO_32];
    }

    method ReceiveData(b: Beat)
      requires receiving
      modifies this
      ensures (State(), sent) == (AfterData(old(State()), b).0, old(sent) + AfterData(old(State()), b).1)
    {
      var words := PayloadWords(b);
      ghost var sent0 := sent;
      assert sent0 + [] == sent0;
      if b.trem != 0 && b.eof {
        if b.trem == 1 {
          left := left - 3;
          buffer := buffer + words[..3];
        } else if b.trem == 2 {
          left := left - 2;
          buffer := buffer + words[..2];
        } else if b.trem == 3 {
          left := left - 1;
          buffer := buffer + words[..1];
        } else {
          assert buffer + words[..0] == buffer;
        }
      } else {
        left := left - 4;
        buffer := buffer + words;
        assert words[..4] == words;
      }
      if (left == 0 && !b.eof) || (left != 0 && b.eof) || left < 0 {
        receiving := false;
      } else if b.eof {
        sent := sent + [Message(CMD_WRITE_TO_HOST, bufferId, Fit(buffer, bufferSize))];
        receiving, left := false, 0;
      }
    }

    method ReceiveHeader(b: Beat, id: uint32)
      requires !receiving
      modifies this
      ensures (State(), sent) == (AfterHeader(b, id).0, old(sent) + AfterHeader(b, id).1)
    {
      hide ByteReorder, Swap32, High32, Low32;
      ghost var sent0 := sent;
      assert sent0 + [] == sent0;
      HeaderFields(b.high);
      HeaderWords(b);
      var high0, low0, low1 := b.high / TWO_32, b.low / TWO_32, b.low % TWO_32;
      var fmt, upper, lower := b.high / 0x100_0000_0000_0000 % 0x80, b.high / 0x1_0000 % 0x1_0000, b.high % 0x1_0000;
      var last := ByteReorder(b.low) / TWO_32;
      left := high0 % 0x400;
      if fmt == FMT_MWR64 {
        bufferSize, bufferId := left + 2, id;
        buffer := [low0, low1];
        receiving := true;
      } else if fmt == FMT_MWR32 {
        bufferSize, bufferId := left + 2, id;
        buffer := [0, low0, last];
        left := left - 1;
        receiving := true;
      } else if fmt == FMT_MRD64 {
        sent := sent + [Message(CMD_READ_FROM_HOST, id, [low0, low1, upper, left * 0x1_0000 + lower])];
      } else if fmt == FMT_MRD32 {
        sent := sent + [Message(CMD_READ_FROM_HOST, id, [0, low0, upper, left * 0x1_0000 + lower])];
      } else if fmt == FMT_CMPLD {
        sent := sent + [Message(CMD_CMPL_TO_HOST, id, [lower * 0x1_0000 + low0 % 0x1_0000, last])];
      }
    }

    // One rising clock edge: data of the packet under way, then perhaps the header of the next one, then acknowledges.
    method ClockEdge(c: Clock)
      modifies this
      ensures (State(), sent) == (AfterClock(old(State()), c).0, old(sent) + AfterClock(old(State()), c).1)
    {
      hide AfterData, AfterHeader;
      ghost var r, sent0 := State(), sent;
      assert sent0 + [] == sent0;
      if c.beat.Some? {
        if receiving {
          ReceiveData(c.beat.value);
        }
        if c.beat.value.sof && !receiving {
          ReceiveHeader(c.beat.value, c.id);
        }
      }
      ghost var ms := (if c.beat.Some? then AfterBeat(r, c.beat.value, c.id) else (r, [])).1;
      assert sent == sent0 + ms;
      if c.writeDone {
        sent := sent + [Message(CMD_ACK_WRITE, c.id, [])];
      }
      if c.cmplDone {
        sent := sent + [Message(CMD_ACK_CMPL, c.id, [])];
      }
      assert sent == sent0 + (ms + Acknowledgements(c));
    }
  }

  // The words of a beat, and the last of them in host byte order.
  lemma HeaderWords(b: Beat)
    ensures b.high / TWO_32 == High32(b.high) && b.low / TWO_32 == High32(b.low) && b.low % TWO_32 == Low32(b.low)
    ensures ByteReorder(b.low) / TWO_32 == Swap32(Low32(b.low))
  {
    hide ByteReorder, Swap32;
    ReorderSwapsHalves(High32(b.low), Low32(b.low));
  }

  // The fields of the upper half of a header beat lie in its two words.
  lemma HeaderFields(high: uint64)
    ensures high / 0x100_0000_0000_0000 % 0x80 == High32(high) / 0x100_0000 % 0x80
    ensures high / 0x1_0000 % 0x1_0000 == Low32(high) / 0x1_0000
    ensures high % 0x1_0000 == Low32(high) % 0x1_0000
  {
    var h, l := High32(high), Low32(high);
    assert high == h * TWO_32 + l;
    assert high / 0x100_0000_0000_0000 == h / 0x100_0000;
    assert high / 0x1_0000 == h * 0x1_0000 + l / 0x1_0000;
  }
}
