/**
 Transaction layer packets on the 128-bit transmit interface, and the messages that stand for them on the socket to the
 host (PCI Express Base Specification, section 2.2).
 */
module Tlp {
  import opened Words
  import opened ByteOrder

  // One clock's worth of a packet. trem counts the 32-bit words at the end that carry nothing.
  datatype Beat = Beat(high: uint64, low: uint64, sof: bool, eof: bool, trem: nat)

  const FMT_MWR64: nat := 0x60
  const FMT_MWR32: nat := 0x40
  const FMT_MRD64: nat := 0x20
  const FMT_MRD32: nat := 0x00
  const FMT_CMPLD: nat := 0x4a

  const CMD_CMPL_TO_DEVICE: nat := 4
  const CMD_READ_FROM_HOST: nat := 5
  const CMD_WRITE_TO_HOST: nat := 6
  const CMD_CMPL_TO_HOST: nat := 7
  const CMD_ACK_TIME: nat := 8
  const CMD_ACK_WRITE: nat := 9
  const CMD_ACK_CMPL: nat := 10

  // The header fields the monitor passes on are separate; `misc` is the rest of the first header word, between the
  // format and the length.
  datatype Packet =
    | Write64(misc: nat, header1: uint32, addrHigh: uint32, addrLow: uint32, data: seq<uint32>)
    | Write32(misc: nat, header1: uint32, addr: uint32, data: seq<uint32>)
    | Read64(misc: nat, header1: uint32, addrHigh: uint32, addrLow: uint32, length: nat)
    | Read32(misc: nat, header1: uint32, addr: uint32, length: nat, unused: uint32)
    | Completion(misc: nat, header1: uint32, header2: uint32, word: uint32)

  // The length field has ten bits; 1024 words would be encoded as zero.
  ghost predicate WellFormed(p: Packet) {
    && p.misc < 0x4000
    && match p
       case Write64(_, _, _, _, data) => 0 < |data| < 1024
       case Write32(_, _, _, data) => 0 < |data| < 1024
       case Read64(_, _, _, _, length) => 0 < length < 1024
       case Read32(_, _, _, length, _) => 0 < length < 1024
       case Completion(_, _, _, _) => true
  }

  // Its word lies in the header beat, which is also its last.
  predicate OneWordWrite(p: Packet) {
    p.Write32? && |p.data| == 1
  }

  function Header0(fmt: nat, misc: nat, length: nat): uint32
    requires fmt < 0x80 && misc < 0x4000 && length < 0x400
  {
    fmt * 0x100_0000 + misc * 0x400 + length
  }

  // Word i of a payload as it appears on the interface; beyond the end anything may appear, here zero.
  function WireWord(data: seq<uint32>, i: nat): uint32 {
    if i < |data| then Swap32(data[i]) else 0
  }

  function FirstDataBeat(data: seq<uint32>): Beat {
    Beat(Join64(WireWord(data, 0), WireWord(data, 1)), Join64(WireWord(data, 2), WireWord(data, 3)),
         false, |data| <= 4, if |data| <= 4 then 4 - |data| else 0)
  }

  function DataBeats(data: seq<uint32>): seq<Beat> {
    if data == [] then []
    else [FirstDataBeat(data)] + if |data| <= 4 then [] else DataBeats(data[4..])
  }

  function Beats(p: Packet): seq<Beat>
    requires WellFormed(p)
  {
    match p
    case Write64(misc, header1, addrHigh, addrLow, data) =>
      [Beat(Join64(Header0(FMT_MWR64, misc, |data|), header1), Join64(addrHigh, addrLow), true, false, 0)]
      + DataBeats(data)
    case Write32(misc, header1, addr, data) =>
      [Beat(Join64(Header0(FMT_MWR32, misc, |data|), header1), Join64(addr, Swap32(data[0])), true, |data| == 1, 0)]
      + DataBeats(data[1..])
    case Read64(misc, header1, addrHigh, addrLow, length) =>
      [Beat(Join64(Header0(FMT_MRD64, misc, length), header1), Join64(addrHigh, addrLow), true, true, 0)]
    case Read32(misc, header1, addr, length, unused) =>
      [Beat(Join64(Header0(FMT_MRD32, misc, length), header1), Join64(addr, unused), true, true, 1)]
    case Completion(misc, header1, header2, word) =>
      [Beat(Join64(Header0(FMT_CMPLD, misc, 1), header1), Join64(header2, Swap32(word)), true, true, 0)]
  }

  // A message on the socket: size and command, the id of the command being served, and the rest.
  datatype Message = Message(command: nat, id: uint32, body: seq<uint32>)

  // The message for a packet. The size in its first word counts all words.
  function MessageOf(p: Packet, id: uint32): Message
    requires WellFormed(p)
  {
    match p
    case Write64(_, _, addrHigh, addrLow, data) => Message(CMD_WRITE_TO_HOST, id, [addrHigh, addrLow] + data)
    case Write32(_, _, addr, data) => Message(CMD_WRITE_TO_HOST, id, [0, addr] + data)
    case Read64(_, header1, addrHigh, addrLow, length) =>
      Message(CMD_READ_FROM_HOST, id,
              [addrHigh, addrLow, header1 / 0x1_0000, length * 0x1_0000 + header1 % 0x1_0000])
    case Read32(_, header1, addr, length, _) =>
      Message(CMD_READ_FROM_HOST, id, [0, addr, header1 / 0x1_0000, length * 0x1_0000 + header1 % 0x1_0000])
    case Completion(_, header1, header2, word) =>
      Message(CMD_CMPL_TO_HOST, id, [header1 % 0x1_0000 * 0x1_0000 + header2 % 0x1_0000, word])
  }

  ghost predicate Sendable(m: Message) {
    m.command < 0x1_0000 && m.command != 0 && |m.body| + 2 < 0x1_0000
  }

  function MessageWords(m: Message): seq<uint32>
    requires Sendable(m)
  {
    [(|m.body| + 2) * 0x1_0000 + m.command, m.id] + m.body
  }
}
