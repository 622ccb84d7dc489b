/**
 Read requests of the device are answered in completions of limited size (PCI Express Base Specification, section
 2.2.9); the simulator unpacks each into the completer's fields again.
 */
module Completions {
  import opened Remainders
  import opened Words
  import opened Tlp
  import opened HostLink
  import opened SimulationLink

  // Param packs status, byte count, tag and lower address; the id is that of the message.
  datatype CompletionMessage = CompletionMessage(
    size: nat, id: nat, requester: uint32, param: nat, payload: seq<uint32>)

  // What the simulator drives onto the completer interface, and the words that follow.
  datatype CompletionFields = CompletionFields(
    status: nat, byteCount: nat, tag: nat, lowerAddress: nat, requester: nat, payload: seq<uint32>)

  function Param(byteCount: nat, tag: nat, lowerAddress: nat): nat {
    byteCount * 0x1_0000 + tag * 0x100 + lowerAddress
  }

  // sockreader on CMD_CMPL_TO_DEVICE.
  function Decode(m: CompletionMessage): CompletionFields {
    CompletionFields(m.param / 0x2000_0000 % 8, m.param / 0x1_0000 % 0x1000, m.param / 0x100 % 0x100, m.param % 0x80,
               m.requester % 0x1_0000, m.payload)
  }

  // The completions for `length` bytes from byte `offset` of the host memory: whole words, in packets of whole words.
  function Split(mem: seq<uint32>, offset: nat, length: nat, lower: nat, tag: nat, requester: uint32, id: nat,
                 packet: nat): seq<CompletionMessage>
    requires 0 < packet && packet % 4 == 0 && length % 4 == 0 && offset / 4 + length / 4 <= |mem|
    decreases length
  {
    if length == 0 then []
    else
      var n := if length > packet then packet else length;
      [CompletionMessage(n / 4 + 4, id, requester, Param(length, tag, lower), mem[offset / 4..offset / 4 + n / 4])]
      + Split(mem, offset + n, length - n, (lower + n) % 0x100 % 0x80, tag, requester, id + 1, packet)
  }

  // One round of the splitting loop.
  lemma SplitStep(mem: seq<uint32>, offset: nat, length: nat, lower: nat, tag: nat, requester: uint32, id: nat,
                  packet: nat)
    requires 0 < packet && packet % 4 == 0 && length % 4 == 0 && offset / 4 + length / 4 <= |mem|
    ensures length == 0 ==> Split(mem, offset, length, lower, tag, requester, id, packet) == []
    ensures length > 0 ==>
              var n := if length > packet then packet else length;
              && 0 < n && n % 4 == 0 && (length - n) % 4 == 0
              && (offset + n) / 4 == offset / 4 + n / 4 && (length - n) / 4 == length / 4 - n / 4
              && var first := CompletionMessage(n / 4 + 4, id, requester, Param(length, tag, lower),
                                                mem[offset / 4..offset / 4 + n / 4]);
                 Split(mem, offset, length, lower, tag, requester, id, packet)
                 == [first] + Split(mem, offset + n, length - n, (lower + n) % 0x100 % 0x80, tag, requester, id + 1,
                                    packet)
  {
    hide Split, Param;
    if length > 0 {
      var n := if length > packet then packet else length;
      WholeWords(offset, length, n);
      SplitUnfold(mem, offset, length, lower, tag, requester, id, packet, n);
    } else {
      SplitNothing(mem, offset, lower, tag, requester, id, packet);
    }
  }

  lemma SplitUnfold(mem: seq<uint32>, offset: nat, length: nat, lower: nat, tag: nat, requester: uint32, id: nat,
                    packet: nat, n: nat)
    requires 0 < packet && packet % 4 == 0 && length % 4 == 0 && offset / 4 + length / 4 <= |mem|
    requires length > 0 && n == (if length > packet then packet else length) && n <= length
    requires offset / 4 + n / 4 <= |mem| && (length - n) % 4 == 0 && (offset + n) / 4 + (length - n) / 4 <= |mem|
    ensures Split(mem, offset, length, lower, tag, requester, id, packet)
         == [CompletionMessage(n / 4 + 4, id, requester, Param(length, tag, lower),
                               mem[offset / 4..offset / 4 + n / 4])]
            + Split(mem, offset + n, length - n, (lower + n) % 0x100 % 0x80, tag, requester, id + 1, packet)
  {
    hide Param;
  }

  lemma SplitNothing(mem: seq<uint32>, offset: nat, lower: nat, tag: nat, requester: uint32, id: nat, packet: nat)
    requires 0 < packet && packet % 4 == 0 && offset / 4 <= |mem|
    ensures Split(mem, offset, 0, lower, tag, requester, id, packet) == []
  {
  }

  lemma WholeWords(offset: nat, length: nat, n: nat)
    requires length % 4 == 0 && n % 4 == 0 && n <= length
    ensures (length - n) % 4 == 0 && (length - n) / 4 == length / 4 - n / 4
    ensures (offset + n) / 4 == offset / 4 + n / 4
  {
  }

  // All payloads, one after the other.
  function Payloads(ms: seq<CompletionMessage>): seq<uint32> {
    if ms == [] then [] else ms[0].payload + Payloads(ms[1..])
  }

  lemma ParamRoundTrip(byteCount: nat, tag: nat, lower: nat)
    requires byteCount < 0x1000 && tag < 0x100 && lower < 0x100
    ensures var param := Param(byteCount, tag, lower);
            && param / 0x2000_0000 % 8 == 0
            && param / 0x1_0000 % 0x1000 == byteCount
            && param / 0x100 % 0x100 == tag
            && param % 0x80 == lower % 0x80
  {
    var param := Param(byteCount, tag, lower);
    assert param / 0x1_0000 == byteCount;
    assert param / 0x100 == byteCount * 0x100 + tag;
    assert param / 0x80 == byteCount * 0x200 + tag * 2 + lower / 0x80;
  }

  // Each completion of a request: within the packet size, with the bytes still to send as its byte count and the lower
  // seven bits of its own address, and nothing of the request's tag and requester lost.
  ghost predicate Answers(ms: seq<CompletionMessage>, length: nat, address: nat, tag: nat, requester: nat,
                          packet: nat) {
    forall i :: 0 <= i < |ms| ==>
      var c, sent := Decode(ms[i]), 4 * |Payloads(ms[..i])|;
      && c.status == 0
      && c.byteCount == length - sent
      && c.lowerAddress == (address + sent) % 0x80
      && c.tag == tag && c.requester == requester
      && 0 < 4 * |c.payload| <= packet
      && ms[i].size == |c.payload| + 4
  }

  lemma AnswersFirst(ms: seq<CompletionMessage>, length: nat, address: nat, tag: nat, requester: nat, packet: nat)
    requires ms != []
    requires var c := Decode(ms[0]);
             && c.status == 0 && c.byteCount == length && c.lowerAddress == address % 0x80
             && c.tag == tag && c.requester == requester && 0 < 4 * |c.payload| <= packet
             && ms[0].size == |c.payload| + 4
    requires 4 * |ms[0].payload| <= length
    requires Answers(ms[1..], length - 4 * |ms[0].payload|, address + 4 * |ms[0].payload|, tag, requester, packet)
    ensures Answers(ms, length, address, tag, requester, packet)
  {
    hide Decode;
    forall i | 0 <= i < |ms|
      ensures var c, sent := Decode(ms[i]), 4 * |Payloads(ms[..i])|;
              && c.status == 0 && c.byteCount == length - sent && c.lowerAddress == (address + sent) % 0x80
              && c.tag == tag && c.requester == requester && 0 < 4 * |c.payload| <= packet
              && ms[i].size == |c.payload| + 4
    {
      if i > 0 {
        assert ms[i] == ms[1..][i - 1];
        assert ms[..i][0] == ms[0] && ms[..i][1..] == ms[1..][..i - 1];
        assert |Payloads(ms[..i])| == |ms[0].payload| + |Payloads(ms[1..][..i - 1])|;
      }
    }
  }

  lemma LowerAddressStep(address: nat, lower: nat, n: nat)
    requires lower % 0x80 == address % 0x80
    ensures (lower + n) % 0x100 % 0x80 == (address + n) % 0x80
  {
    SameRemainder(lower, address, n, 0x80);
    RemainderOfRemainder(lower + n, 0x80, 2);
  }

  // The completions carry exactly the requested memory, in order, and their fields say so.
  lemma {:induction false} SplitAnswers(mem: seq<uint32>, offset: nat, length: nat, address: nat, lower: nat, tag: nat,
                                        requester: uint32, id: nat, packet: nat)
    requires 0 < packet && packet % 4 == 0 && length % 4 == 0 && offset / 4 + length / 4 <= |mem|
    requires length < 0x1000 && tag < 0x100 && lower < 0x100 && requester < 0x1_0000
    requires lower % 0x80 == address % 0x80
    ensures var ms := Split(mem, offset, length, lower, tag, requester, id, packet);
            && Payloads(ms) == mem[offset / 4..offset / 4 + length / 4]
            && Answers(ms, length, address, tag, requester, packet)
    decreases length
  {
    hide Split, Param, Answers, Decode, Payloads;
    SplitStep(mem, offset, length, lower, tag, requester, id, packet);
    if length == 0 {
      NoPayloads();
      AnswersNothing(length, address, tag, requester, packet);
    } else {
      var ms := Split(mem, offset, length, lower, tag, requester, id, packet);
      var n := if length > packet then packet else length;
      var next := (lower + n) % 0x100 % 0x80;
      LowerAddressStep(address, lower, n);
      SplitAnswers(mem, offset + n, length - n, address + n, next, tag, requester, id + 1, packet);
      FirstCompletion(ms[0], length, tag, lower);
      PayloadsUnfold(ms);
      SlicesMeet(mem, offset / 4, offset / 4 + n / 4, offset / 4 + length / 4);
      assert ms[1..] == Split(mem, offset + n, length - n, next, tag, requester, id + 1, packet);
      AnswersFirst(ms, length, address, tag, requester, packet);
    }
  }

  lemma SlicesMeet(mem: seq<uint32>, a: nat, b: nat, c: nat)
    requires a <= b <= c <= |mem|
    ensures mem[a..b] + mem[b..c] == mem[a..c]
  {
  }

  lemma NoPayloads()
    ensures Payloads([]) == []
  {
  }

  lemma PayloadsUnfold(ms: seq<CompletionMessage>)
    requires ms != []
    ensures Payloads(ms) == ms[0].payload + Payloads(ms[1..])
  {
  }

  lemma FirstCompletion(m: CompletionMessage, length: nat, tag: nat, lower: nat)
    requires length < 0x1000 && tag < 0x100 && lower < 0x100
    requires m.param == Param(length, tag, lower) && m.requester < 0x1_0000
    ensures Decode(m) == CompletionFields(0, length, tag, lower % 0x80, m.requester, m.payload)
  {
    hide Param;
    ParamRoundTrip(length, tag, lower);
    RemainderUnique(m.requester, 0, m.requester, 0x1_0000);
  }

  lemma AnswersNothing(length: nat, address: nat, tag: nat, requester: nat, packet: nat)
    ensures Answers([], length, address, tag, requester, packet)
  {
  }

  lemma RequestIs(address: uint64, words: nat, header1: uint32)
    ensures var request := Request(address, 4 * words, header1);
            && request.length == 4 * words && request.lowerAddr < 0x100 && request.lowerAddr % 0x80 == address % 0x80
            && request.tag == header1 / 0x100 % 0x100 && request.requester == header1 / 0x1_0000
            && request.tag < 0x100 && request.requester < 0x1_0000
  {
    RemainderOfRemainder(address, 0x80, 2);
    HalfWord(header1);
  }

  lemma HalfWord(word: uint32)
    ensures 0 <= word / 0x1_0000 < 0x1_0000
  {
  }

  lemma WordsOfBytes(words: nat)
    ensures 4 * words % 4 == 0 && 4 * words / 4 == words
  {
  }

  // The messages are numbered in a row, and all but the last are filled to the packet size.
  lemma {:induction false} SplitIsFull(mem: seq<uint32>, offset: nat, length: nat, lower: nat, tag: nat,
                                       requester: uint32, id: nat, packet: nat, i: nat)
    requires 0 < packet && packet % 4 == 0 && length % 4 == 0 && offset / 4 + length / 4 <= |mem|
    requires i < |Split(mem, offset, length, lower, tag, requester, id, packet)|
    ensures var ms := Split(mem, offset, length, lower, tag, requester, id, packet);
            ms[i].id == id + i && (i < |ms| - 1 ==> 4 * |ms[i].payload| == packet)
    decreases length
  {
    hide Split, Param;
    SplitStep(mem, offset, length, lower, tag, requester, id, packet);
    var n := if length > packet then packet else length;
    var next := (lower + n) % 0x100 % 0x80;
    if i > 0 {
      SplitIsFull(mem, offset + n, length - n, next, tag, requester, id + 1, packet, i - 1);
    } else {
      SplitStep(mem, offset + n, length - n, next, tag, requester, id + 1, packet);
    }
  }

  // A read packet's request, as the host receives it over the link, is answered with exactly the words it asks for.
  lemma RequestIsAnswered(mem: seq<uint32>, offset: nat, address: uint64, words: nat, header1: uint32, id: nat,
                          packet: nat)
    requires 0 < words < 1024
    requires 0 < packet && packet % 4 == 0 && offset / 4 + words <= |mem|
    ensures var request := Request(address, 4 * words, header1);
            var ms := Split(mem, offset, request.length, request.lowerAddr, request.tag, request.requester, id, packet);
            && Payloads(ms) == mem[offset / 4..offset / 4 + words]
            && Answers(ms, 4 * words, address, header1 / 0x100 % 0x100, header1 / 0x1_0000, packet)
            && forall i :: 0 <= i < |ms| ==>
                             ms[i].id == id + i && (i < |ms| - 1 ==> 4 * |ms[i].payload| == packet)
  {
    hide *;
    RequestIs(address, words, header1);
    WordsOfBytes(words);
    var request := Request(address, 4 * words, header1);
    var ms := Split(mem, offset, request.length, request.lowerAddr, request.tag, request.requester, id, packet);
    forall i | 0 <= i < |ms|
      ensures ms[i].id == id + i && (i < |ms| - 1 ==> 4 * |ms[i].payload| == packet)
    {
      SplitIsFull(mem, offset, request.length, request.lowerAddr, request.tag, request.requester, id, packet, i);
    }
    SplitAnswers(mem, offset, request.length, address, request.lowerAddr, request.tag, request.requester, id, packet);
  }

  class CompletionHandler {
    var maxPacketSize: nat
    var messageId: nat
    var sent: seq<CompletionMessage>

    constructor ()
      ensures maxPacketSize == 128 && messageId == 0 && sent == []
    {
      maxPacketSize, messageId, sent := 128, 0, [];
    }

    method SimSetPacketSize(packet: nat)
      modifies `maxPacketSize
      ensures maxPacketSize == packet
    {
      maxPacketSize := packet;
    }

    // Answer one request from the words of its buffer, which is mapped twice in a row.
    method Answer(mem: seq<uint32>, start: nat, request: ReadRequest)
      requires 0 < maxPacketSize && maxPacketSize % 4 == 0
      requires request.length % 4 == 0 && start / 4 + request.length / 4 <= |mem|
      modifies `messageId, `sent
      ensures var ms := Split(mem, start, request.length, request.lowerAddr, request.tag, request.requester,
                              old(messageId), maxPacketSize);
              sent == old(sent) + ms && messageId == old(messageId) + |ms|
    {
      var length: nat, offset: nat, lower: nat := request.length, start, request.lowerAddr;
      hide Split, Param;
      SplitStep(mem, offset, length, lower, request.tag, request.requester, messageId, maxPacketSize);
      while length != 0
        invariant length % 4 == 0 && offset / 4 + length / 4 <= |mem|
        invariant var rest := Split(mem, offset, length, lower, request.tag, request.requester, messageId,
                                    maxPacketSize);
                  var ms := Split(mem, start, request.length, request.lowerAddr, request.tag, request.requester,
                                  old(messageId), maxPacketSize);
                  sent + rest == old(sent) + ms && messageId + |rest| == old(messageId) + |ms|
        decreases length
      {
        SplitStep(mem, offset, length, lower, request.tag, request.requester, messageId, maxPacketSize);
        var n := if length > maxPacketSize then maxPacketSize else length;
        var message := CompletionMessage((4 * 4 + n) / 4, messageId, request.requester,
                                         Param(length, request.tag, lower), mem[offset / 4..offset / 4 + n / 4]);
        ghost var rest := Split(mem, offset + n, length - n, (lower + n) % 0x100 % 0x80, request.tag, request.requester,
                                messageId + 1, maxPacketSize);
        assert sent + ([message] + rest) == (sent + [message]) + rest;
        sent := sent + [message];
        messageId := messageId + 1;
        length := length - n;
        offset := offset + n;
        lower := (lower + n) % 0x100;
        lower := lower % 0x80;
      }
      SplitStep(mem, offset, length, lower, request.tag, request.requester, messageId, maxPacketSize);
      assert sent + [] == sent;
    }
  }
}
