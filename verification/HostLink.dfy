/** The host's end of the socket: the stream of 32-bit words is cut into messages again and each is acted on. */
module HostLink {
  import opened Words
  import opened Tlp

  // A read request as it is handed to the completion handler; its fields have 16, 8, 8, 8 and 32 bits.
  datatype ReadRequest = ReadRequest(
    address: uint64, length: nat, tag: nat, byteEnable: nat, lowerAddr: nat, requester: uint32)

  datatype HostEvent =
    | ReadData(data: uint32)
    | HostWrite(address: uint64, payload: seq<uint32>)
    | HostRead(request: ReadRequest)
    | CompletionAcknowledged
    | WriteAcknowledged
    | Time(time: uint64)

  // A closed socket reads as zero.
  function Front(stream: seq<uint32>): uint32 {
    if stream == [] then 0 else stream[0]
  }

  function Drop(stream: seq<uint32>, n: nat): (rest: seq<uint32>)
    ensures |rest| <= |stream|
    ensures n > 0 && stream != [] ==> |rest| < |stream|
  {
    if n <= |stream| then stream[n..] else []
  }

  function Take(stream: seq<uint32>, n: nat): (front: seq<uint32>)
    ensures |front| == n
  {
    if n <= |stream| then stream[..n] else stream + seq<uint32>(n - |stream|, _ => 0)
  }

  function RequestOf(high: uint32, low: uint32, requester: uint32, param: uint32): ReadRequest {
    ReadRequest(Join64(high, low), param / 0x1_0000 * 4 % 0x1_0000, param / 0x100 % 0x100, param % 0x100, low % 0x100,
                requester)
  }

  // The event of one message, given what follows its first two words, and how many words it has behind those two.
  function Interpret(size: nat, command: nat, rest: seq<uint32>): (seq<HostEvent>, nat) {
    var a := Take(rest, 4);
    if command == CMD_CMPL_TO_HOST then ([ReadData(a[1])], 2)
    else if command == CMD_WRITE_TO_HOST then
      var n := (size - 4) % 0x1_0000;
      ([HostWrite(Join64(a[0], a[1]), Take(Drop(rest, 2), n))], n + 2)
    else if command == CMD_READ_FROM_HOST then ([HostRead(RequestOf(a[0], a[1], a[2], a[3]))], 4)
    else if command == CMD_ACK_CMPL then ([CompletionAcknowledged], 0)
    else if command == CMD_ACK_WRITE then ([WriteAcknowledged], 0)
    else if command == CMD_ACK_TIME then ([Time(Join64(a[0], a[1]))], 2)
    else ([], 0)
  }

  // Everything the monitor does with a stream, up to its first message word zero.
  function Parse(stream: seq<uint32>): seq<HostEvent>
    decreases |stream|
  {
    if Front(stream) == 0 then []
    else
      var rest := Drop(stream, 2);
      var (events, n) := Interpret(stream[0] / 0x1_0000, stream[0] % 0x1_0000, rest);
      events + Parse(Drop(rest, n))
  }

  lemma DropDrop(stream: seq<uint32>, m: nat, n: nat)
    ensures Drop(Drop(stream, m), n) == Drop(stream, m + n)
  {
  }

  class HostLink {
    var stream: seq<uint32>
    var events: seq<HostEvent>

    constructor (stream: seq<uint32>)
      ensures this.stream == stream && events == []
    {
      this.stream, events := stream, [];
    }

    method ReadDW() returns (word: uint32)
      modifies `stream
      ensures word == Front(old(stream)) && stream == Drop(old(stream), 1)
    {
      if stream == [] {
        return 0;
      }
      word, stream := stream[0], stream[1..];
    }

    method ReadDWs(n: nat) returns (words: seq<uint32>)
      modifies `stream
      ensures words == Take(old(stream), n) && stream == Drop(old(stream), n)
    {
      words := [];
      for i := 0 to n
        invariant words == Take(old(stream), i) && stream == Drop(old(stream), i)
      {
        DropDrop(old(stream), i, 1);
        var word := ReadDW();
        words := words + [word];
      }
    }

    method DoCompleteToHost(size: nat)
      modifies this
      ensures var (es, n) := Interpret(size, CMD_CMPL_TO_HOST, old(stream));
              events == old(events) + es && stream == Drop(old(stream), n)
    {
      DropDrop(stream, 1, 1);
      var _ := ReadDW();
      var data := ReadDW();
      events := events + [ReadData(data)];
    }

    method DoWriteToHost(size: nat)
      modifies this
      ensures var (es, n) := Interpret(size, CMD_WRITE_TO_HOST, old(stream));
              events == old(events) + es && stream == Drop(old(stream), n)
    {
      DropDrop(stream, 1, 1);
      var high := ReadDW();
      var low := ReadDW();
      DropDrop(old(stream), 2, (size - 4) % 0x1_0000);
      var payload := ReadDWs((size - 4) % 0x1_0000);
      events := events + [HostWrite(high * TWO_32 + low, payload)];
    }

    method DoReadFromHost(size: nat)
      modifies this
      ensures var (es, n) := Interpret(size, CMD_READ_FROM_HOST, old(stream));
              events == old(events) + es && stream == Drop(old(stream), n)
    {
      var words := ReadDWs(4);
      var address := words[0] * TWO_32 + words[1];
      var param := words[3];
      LowByteOf(words[0], words[1]);
      var request := ReadRequest(address, param / 0x1_0000 * 4 % 0x1_0000, param / 0x100 % 0x100, param % 0x100,
                                 address % 0x100, words[2]);
      events := events + [HostRead(request)];
    }

    method DoAcknowledgeTime(size: nat)
      modifies this
      ensures var (es, n) := Interpret(size, CMD_ACK_TIME, old(stream));
              events == old(events) + es && stream == Drop(old(stream), n)
    {
      DropDrop(stream, 1, 1);
      var high := ReadDW();
      var low := ReadDW();
      events := events + [Time(high * TWO_32 + low)];
    }

    // Act on one message whose first two words have been read. Unknown commands are skipped.
    method Dispatch(size: nat, command: nat)
      modifies this
      ensures var (es, n) := Interpret(size, command, old(stream));
              events == old(events) + es && stream == Drop(old(stream), n)
    {
      hide Interpret;
      UnknownOrEmpty(size, command, stream);
      assert events + [] == events;
      if command == CMD_CMPL_TO_HOST {
        DoCompleteToHost(size);
      } else if command == CMD_WRITE_TO_HOST {
        DoWriteToHost(size);
      } else if command == CMD_READ_FROM_HOST {
        DoReadFromHost(size);
      } else if command == CMD_ACK_CMPL {
        events := events + [CompletionAcknowledged];
      } else if command == CMD_ACK_WRITE {
        events := events + [WriteAcknowledged];
      } else if command == CMD_ACK_TIME {
        DoAcknowledgeTime(size);
      }
    }

    method SockMonitor()
      modifies this
      ensures events == old(events) + Parse(old(stream))
    {
      hide Interpret, Parse, Drop;
      var first := ReadDW();
      ghost var left, before := old(stream), events;
      ParseStep(left);
      while first != 0
        invariant first == Front(left) && stream == Drop(left, 1)
        invariant events + Parse(left) == before + Parse(old(stream))
        decreases |left|
      {
        DropDrop(left, 1, 1);
        ParseStep(left);
        var size := first / 0x1_0000;
        var _ := ReadDW();
        ghost var (es, n) := Interpret(size, first % 0x1_0000, stream);
        ghost var done := events;
        Dispatch(size, first % 0x1_0000);
        assert (done + es) + Parse(stream) == done + (es + Parse(stream));
        left := stream;
        first := ReadDW();
      }
      ParseStep(left);
      assert events + [] == events;
    }
  }

  lemma UnknownOrEmpty(size: nat, command: nat, rest: seq<uint32>)
    ensures command == CMD_ACK_CMPL ==> Interpret(size, command, rest) == ([CompletionAcknowledged], 0)
    ensures command == CMD_ACK_WRITE ==> Interpret(size, command, rest) == ([WriteAcknowledged], 0)
    ensures command < CMD_READ_FROM_HOST || CMD_ACK_CMPL < command ==> Interpret(size, command, rest) == ([], 0)
    ensures Drop(rest, 0) == rest
  {
  }

  lemma ParseStep(stream: seq<uint32>)
    ensures Front(stream) == 0 ==> Parse(stream) == []
    ensures Front(stream) != 0 ==>
              var (es, n) := Interpret(Front(stream) / 0x1_0000, Front(stream) % 0x1_0000, Drop(stream, 2));
              Parse(stream) == es + Parse(Drop(Drop(stream, 2), n)) && |Drop(Drop(stream, 2), n)| < |stream|
  {
  }

  lemma LowByteOf(high: uint32, low: uint32)
    ensures (high * TWO_32 + low) % 0x100 == low % 0x100
  {
  }
}
