/**
 The bits of a packet's beats (PCI Express Base Specification, section 2.2.1), the words of the messages on the socket,
 and what the host makes of each command.
 */
module LinkLayout {
  import opened Words
  import opened ByteOrder
  import opened Tlp
  import opened HostLink
  import opened Remainders

  // The words of a packet's payload.
  function LengthOf(p: Packet): nat {
    match p
    case Write64(_, _, _, _, data) => |data|
    case Write32(_, _, _, data) => |data|
    case Read64(_, _, _, _, length) => length
    case Read32(_, _, _, length, _) => length
    case Completion(_, _, _, _) => 1
  }

  // The first word of a packet: bit 30 says that a payload follows, bit 29 that the address has 64 bits, the five bits
  // below are the type (10 for a completion, else 0), and the lowest ten are the length in words.
  lemma FirstWordIs(p: Packet)
    requires WellFormed(p)
    ensures var word := Beats(p)[0].high / 0x1_0000_0000;
            && word / 0x8000_0000 == 0
            && word / 0x4000_0000 % 2 == (if p.Read64? || p.Read32? then 0 else 1)
            && word / 0x2000_0000 % 2 == (if p.Write64? || p.Read64? then 1 else 0)
            && word / 0x100_0000 % 0x20 == (if p.Completion? then 10 else 0)
            && word % 0x400 == LengthOf(p)
    ensures Beats(p)[0].high % 0x1_0000_0000 == p.header1
  {
    hide Header0;
    var fmt := match p
      case Write64(_, _, _, _, _) => 0x60
      case Write32(_, _, _, _) => 0x40
      case Read64(_, _, _, _, _) => 0x20
      case Read32(_, _, _, _, _) => 0
      case Completion(_, _, _, _) => 0x4a;
    FormatBits(fmt, p.misc, LengthOf(p));
    HalvesOfJoin(Header0(fmt, p.misc, LengthOf(p)), p.header1);
  }

  lemma FormatBits(fmt: nat, misc: nat, length: nat)
    requires fmt < 0x80 && misc < 0x4000 && length < 0x400
    ensures var word := Header0(fmt, misc, length);
            && word / 0x8000_0000 == 0
            && word / 0x4000_0000 % 2 == fmt / 0x40 && word / 0x2000_0000 % 2 == fmt / 0x20 % 2
            && word / 0x100_0000 % 0x20 == fmt % 0x20 && word % 0x400 == length
  {
    var word, lower := Header0(fmt, misc, length), misc * 0x400 + length;
    assert word == fmt * 0x100_0000 + lower && lower < 0x100_0000;
    hide Header0;
    UpperPart(word, fmt / 0x80, fmt % 0x80 * 0x100_0000 + lower, 0x8000_0000);
    UpperPart(word, fmt / 0x40, fmt % 0x40 * 0x100_0000 + lower, 0x4000_0000);
    UpperPart(word, fmt / 0x20, fmt % 0x20 * 0x100_0000 + lower, 0x2000_0000);
    UpperPart(word, fmt, lower, 0x100_0000);
  }

  lemma UpperPart(word: nat, upper: nat, lower: nat, unit: nat)
    requires lower < unit && word == upper * unit + lower
    ensures word / unit == upper
  {
    RemainderUnique(word, upper, lower, unit);
  }

  lemma HalvesOfJoin(high: uint32, low: uint32)
    ensures Join64(high, low) / 0x1_0000_0000 == high && Join64(high, low) % 0x1_0000_0000 == low
  {
  }

  // Word k of four on the interface, counted from the upper end.
  function WordOfBeat(b: Beat, k: nat): uint32
    requires k < 4
  {
    var half := if k < 2 then b.high else b.low;
    if k % 2 == 0 then half / 0x1_0000_0000 else half % 0x1_0000_0000
  }

  // The words behind the first two of a header beat: the address, or the completion's second header word, and the
  // payload word that fits.
  lemma HeaderBeatIs(p: Packet)
    requires WellFormed(p)
    ensures var b := Beats(p)[0];
            && b.sof && (b.eof <==> |Beats(p)| == 1)
            && b.trem == (if p.Read32? then 1 else 0)
            && WordOfBeat(b, 2)
               == (match p
                   case Write64(_, _, high, _, _) => high
                   case Write32(_, _, addr, _) => addr
                   case Read64(_, _, high, _, _) => high
                   case Read32(_, _, addr, _, _) => addr
                   case Completion(_, _, header2, _) => header2)
            && ((p.Write64? || p.Read64?) ==> WordOfBeat(b, 3) == p.addrLow)
            && (p.Write32? ==> WordOfBeat(b, 3) == Swap32(p.data[0]))
            && (p.Completion? ==> WordOfBeat(b, 3) == Swap32(p.word))
  {
    hide Header0, Swap32, Join64, DataBeats;
    match p
    case Write64(_, _, high, low, data) =>
      HalvesOfJoin(high, low);
      DataBeatsNotEmpty(data);
    case Write32(_, _, addr, data) =>
      HalvesOfJoin(addr, Swap32(data[0]));
      DataBeatsNotEmpty(data[1..]);
    case Read64(_, _, high, low, _) =>
      HalvesOfJoin(high, low);
    case Read32(_, _, addr, _, unused) =>
      HalvesOfJoin(addr, unused);
    case Completion(_, _, header2, word) =>
      HalvesOfJoin(header2, Swap32(word));
  }

  lemma DataBeatsNotEmpty(data: seq<uint32>)
    ensures DataBeats(data) == [] <==> data == []
  {
  }

  // A payload takes four words a beat, each with its bytes reversed; only the last beat ends the frame, and counts the
  // words it leaves empty.
  lemma {:induction false} DataBeatsAre(data: seq<uint32>, i: nat)
    requires i < |data|
    ensures var beats := DataBeats(data);
            && |beats| == (|data| + 3) / 4
            && i / 4 < |beats|
            && WordOfBeat(beats[i / 4], i % 4) == Swap32(data[i])
            && !beats[i / 4].sof
            && (beats[i / 4].eof <==> i / 4 == |beats| - 1)
            && beats[i / 4].trem == (if i / 4 == |beats| - 1 then 4 * |beats| - |data| else 0)
    decreases |data|
  {
    hide FirstDataBeat, WordOfBeat, Swap32;
    FirstDataBeatIs(data, i);
    if |data| > 4 {
      var rest := data[4..];
      if i >= 4 {
        DataBeatsAre(rest, i - 4);
        FourLater(i);
      } else {
        DataBeatsAre(rest, 0);
      }
    }
  }

  lemma FourLater(i: nat)
    requires i >= 4
    ensures i / 4 == (i - 4) / 4 + 1 && i % 4 == (i - 4) % 4
  {
  }

  lemma FirstDataBeatIs(data: seq<uint32>, i: nat)
    requires data != []
    ensures var b := FirstDataBeat(data);
            && !b.sof && (b.eof <==> |data| <= 4) && b.trem == (if |data| <= 4 then 4 - |data| else 0)
            && (i < |data| && i < 4 ==> WordOfBeat(b, i) == Swap32(data[i]))
  {
    hide Join64, Swap32;
    HalvesOfJoin(WireWord(data, 0), WireWord(data, 1));
    HalvesOfJoin(WireWord(data, 2), WireWord(data, 3));
  }

  // The message of a packet, word by word.
  lemma MessageIs(p: Packet, id: uint32)
    requires WellFormed(p)
    ensures Sendable(MessageOf(p, id))
    ensures MessageWords(MessageOf(p, id)) ==
            match p
            case Write64(_, _, high, low, data) => [(|data| + 4) * 0x1_0000 + 6, id, high, low] + data
            case Write32(_, _, addr, data) => [(|data| + 4) * 0x1_0000 + 6, id, 0, addr] + data
            case Read64(_, header1, high, low, length) =>
              [0x6_0005, id, high, low, header1 / 0x1_0000, length * 0x1_0000 + header1 % 0x1_0000]
            case Read32(_, header1, addr, length, _) =>
              [0x6_0005, id, 0, addr, header1 / 0x1_0000, length * 0x1_0000 + header1 % 0x1_0000]
            case Completion(_, header1, header2, word) =>
              [0x4_0007, id, header1 % 0x1_0000 * 0x1_0000 + header2 % 0x1_0000, word]
  {
  }

  // What the host does with each command and how many words behind the first two it takes off the stream; the size
  // matters to writes only, and a command that is none of these is skipped.
  lemma CommandIs(size: nat, command: nat, rest: seq<uint32>)
    ensures var (events, n) := Interpret(size, command, rest);
            if command == 5 then
              n == 4 &&
              var w := Take(rest, 4);
              events == [HostRead(ReadRequest(w[0] as int * 0x1_0000_0000 + w[1], w[3] / 0x1_0000 * 4 % 0x1_0000,
                                              w[3] / 0x100 % 0x100, w[3] % 0x100, w[1] % 0x100, w[2]))]
            else if command == 6 then
              n == (size - 4) % 0x1_0000 + 2 &&
              var w := Take(rest, n);
              events == [HostWrite(w[0] as int * 0x1_0000_0000 + w[1], w[2..])]
            else if command == 7 then n == 2 && events == [ReadData(Take(rest, 2)[1])]
            else if command == 8 then
              n == 2 && var w := Take(rest, 2); events == [Time(w[0] as int * 0x1_0000_0000 + w[1])]
            else if command == 9 then n == 0 && events == [WriteAcknowledged]
            else if command == 10 then n == 0 && events == [CompletionAcknowledged]
            else n == 0 && events == []
  {
    if command == 6 {
      TakeTail(rest, (size - 4) % 0x1_0000);
    }
  }

  lemma TakeTail(rest: seq<uint32>, n: nat)
    ensures Take(rest, n + 2)[2..] == Take(Drop(rest, 2), n)
    ensures Take(rest, 4)[..2] == Take(rest, n + 2)[..2]
    ensures Take(rest, 4)[0] == Take(rest, n + 2)[0] && Take(rest, 4)[1] == Take(rest, n + 2)[1]
  {
  }
}
