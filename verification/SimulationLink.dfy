/** From packets on the simulated interface to actions of the host: printer and parser of the socket undo each other. */
module SimulationLink {
  import opened Words
  import opened ByteOrder
  import opened Tlp
  import opened TrnMonitor
  import opened Link
  import opened HostLink
  import opened Remainders

  // The words of all messages, one after the other.
  ghost function StreamOf(ms: seq<Message>): seq<uint32>
    requires forall m :: m in ms ==> Regular(m)
  {
    if ms == [] then []
    else
      assert Regular(ms[0]);
      MessageWords(ms[0]) + StreamOf(ms[1..])
  }

  // The messages the simulator sends: each command with the size it announces.
  ghost predicate Regular(m: Message) {
    && Sendable(m)
    && (|| (m.command == CMD_CMPL_TO_HOST && |m.body| == 2)
        || (m.command == CMD_WRITE_TO_HOST && |m.body| >= 2)
        || (m.command == CMD_READ_FROM_HOST && |m.body| == 4)
        || (m.command == CMD_ACK_TIME && |m.body| == 2)
        || (m.command == CMD_ACK_CMPL && |m.body| == 0)
        || (m.command == CMD_ACK_WRITE && |m.body| == 0))
  }

  // What a message means, read off its fields alone.
  ghost function EventOf(m: Message): HostEvent
    requires Regular(m)
  {
    var b := m.body;
    if m.command == CMD_CMPL_TO_HOST then ReadData(b[1])
    else if m.command == CMD_WRITE_TO_HOST then HostWrite(Join64(b[0], b[1]), b[2..])
    else if m.command == CMD_READ_FROM_HOST then HostRead(RequestOf(b[0], b[1], b[2], b[3]))
    else if m.command == CMD_ACK_CMPL then CompletionAcknowledged
    else if m.command == CMD_ACK_WRITE then WriteAcknowledged
    else Time(Join64(b[0], b[1]))
  }

  ghost function EventsOf(ms: seq<Message>): (events: seq<HostEvent>)
    requires forall m :: m in ms ==> Regular(m)
    ensures |events| == |ms|
    ensures forall i :: 0 <= i < |ms| ==> events[i] == EventOf(ms[i])
  {
    if ms == [] then [] else [EventOf(ms[0])] + EventsOf(ms[1..])
  }

  lemma HeadHoldsFields(m: Message)
    requires Sendable(m)
    ensures var head := MessageWords(m)[0];
            head != 0 && head / 0x1_0000 == |m.body| + 2 && head % 0x1_0000 == m.command
  {
  }

  // A regular message at the front of the stream is read whole, and nothing beyond it.
  lemma MessageIsInterpreted(m: Message, rest: seq<uint32>)
    requires Regular(m)
    ensures Interpret(|m.body| + 2, m.command, m.body + rest) == ([EventOf(m)], |m.body|)
  {
    hide Join64, RequestOf;
    var a := Take(m.body + rest, 4);
    if m.command == CMD_WRITE_TO_HOST {
      assert Take(Drop(m.body + rest, 2), |m.body| - 2) == m.body[2..];
      assert a[0] == m.body[0] && a[1] == m.body[1];
    } else {
      assert forall i :: 0 <= i < |m.body| ==> a[i] == m.body[i];
    }
  }

  lemma FrontOfStream(m: Message, tail: seq<uint32>)
    requires Sendable(m)
    ensures var stream := MessageWords(m) + tail;
            && Front(stream) == MessageWords(m)[0]
            && Drop(stream, 2) == m.body + tail
            && Drop(Drop(stream, 2), |m.body|) == tail
  {
  }

  // Whatever messages were sent, the host reads back their events, in order, and stays word-synchronised throughout.
  lemma {:induction false} HostParsesMessages(ms: seq<Message>)
    requires forall m :: m in ms ==> Regular(m)
    ensures Parse(StreamOf(ms)) == EventsOf(ms)
    decreases ms
  {
    if ms != [] {
      var m, tail := ms[0], StreamOf(ms[1..]);
      assert m in ms && Regular(m);
      HostParsesMessages(ms[1..]);
      HeadHoldsFields(m);
      FrontOfStream(m, tail);
      MessageIsInterpreted(m, tail);
      hide Interpret, Parse, Drop, MessageWords;
      ParseStep(MessageWords(m) + tail);
    }
  }

  // -- From packets to host events ---------------------------------------------------------------------------------

  // What a packet asks of the host, in the terms of the PCI Express header fields: the second header word holds the
  // requester, the tag and the byte enables.
  ghost function Meaning(p: Packet): HostEvent
    requires WellFormed(p)
  {
    match p
    case Write64(_, _, addrHigh, addrLow, data) => HostWrite(Join64(addrHigh, addrLow), data)
    case Write32(_, _, addr, data) => HostWrite(addr, data)
    case Read64(_, header1, addrHigh, addrLow, length) =>
      HostRead(Request(Join64(addrHigh, addrLow), 4 * length, header1))
    case Read32(_, header1, addr, length, _) => HostRead(Request(addr, 4 * length, header1))
    case Completion(_, _, _, word) => ReadData(word)
  }

  ghost function Request(address: uint64, bytes: nat, header1: uint32): ReadRequest {
    ReadRequest(address, bytes, header1 / 0x100 % 0x100, header1 % 0x100, address % 0x100, header1 / 0x1_0000)
  }

  lemma PacketMessageIsRegular(p: Packet, id: uint32)
    requires WellFormed(p)
    ensures Regular(MessageOf(p, id))
  {
  }

  lemma RequestFields(high: uint32, low: uint32, length: nat, header1: uint32)
    requires length < 1024
    ensures RequestOf(high, low, header1 / 0x1_0000, length * 0x1_0000 + header1 % 0x1_0000)
         == Request(Join64(high, low), 4 * length, header1)
  {
    var param := length * 0x1_0000 + header1 % 0x1_0000;
    ParamFields(length, header1);
    assert param / 0x1_0000 * 4 % 0x1_0000 == 4 * length;
    hide Join64;
    LowByteOf(high, low);
    assert Join64(high, low) % 0x100 == low % 0x100 by {
      JoinIs(high, low);
    }
  }

  lemma JoinIs(high: uint32, low: uint32)
    ensures Join64(high, low) == high * TWO_32 + low
  {
  }

  lemma ParamFields(length: nat, header1: uint32)
    requires length < 1024
    ensures var param := length * 0x1_0000 + header1 % 0x1_0000;
            && param / 0x1_0000 == length
            && param / 0x100 % 0x100 == header1 / 0x100 % 0x100
            && param % 0x100 == header1 % 0x100
  {
    var upper, lower := header1 / 0x1_0000, header1 % 0x1_0000;
    var middle, last := lower / 0x100, lower % 0x100;
    var param := length * 0x1_0000 + lower;
    RemainderUnique(param, length, lower, 0x1_0000);
    RemainderUnique(param, length * 0x100 + middle, last, 0x100);
    RemainderUnique(header1, upper * 0x100 + middle, last, 0x100);
    RemainderUnique(length * 0x100 + middle, length, middle, 0x100);
    RemainderUnique(upper * 0x100 + middle, upper, middle, 0x100);
  }

  lemma MessageMeansPacket(p: Packet, id: uint32)
    requires WellFormed(p)
    ensures Regular(MessageOf(p, id)) && EventOf(MessageOf(p, id)) == Meaning(p)
  {
    PacketMessageIsRegular(p, id);
    hide RequestOf, Request;
    match p
    case Write64(_, _, addrHigh, addrLow, data) =>
      assert ([addrHigh, addrLow] + data)[2..] == data;
    case Write32(_, _, addr, data) =>
      assert ([0, addr] + data)[2..] == data;
    case Read64(_, header1, addrHigh, addrLow, length) =>
      RequestFields(addrHigh, addrLow, length, header1);
    case Read32(_, header1, addr, length, _) =>
      RequestFields(0, addr, length, header1);
    case Completion(_, _, _, _) =>
  }

  // Besides acknowledges.
  ghost function AnswerEvents(events: seq<HostEvent>): seq<HostEvent> {
    if events == [] then []
    else (if events[0].CompletionAcknowledged? || events[0].WriteAcknowledged? then [] else [events[0]])
         + AnswerEvents(events[1..])
  }

  lemma AcknowledgeEvents(m: Message)
    requires Regular(m)
    ensures IsAcknowledge(m) <==> EventOf(m).CompletionAcknowledged? || EventOf(m).WriteAcknowledged?
  {
  }

  lemma {:induction false} AnswersHaveAnswerEvents(ms: seq<Message>)
    requires forall m :: m in ms ==> Regular(m)
    ensures forall m :: m in Answers(ms) ==> Regular(m)
    ensures AnswerEvents(EventsOf(ms)) == EventsOf(Answers(ms))
  {
    hide EventsOf, EventOf, Regular;
    if ms != [] {
      AnswersHaveAnswerEvents(ms[1..]);
      var rest, answers := Answers(ms[1..]), Answers(ms);
      assert EventsOf(ms)[1..] == EventsOf(ms[1..]);
      AcknowledgeEvents(ms[0]);
      if !IsAcknowledge(ms[0]) {
        assert answers == [ms[0]] + rest;
        assert EventsOf(answers) == [EventOf(ms[0])] + EventsOf(rest);
      } else {
        assert answers == rest;
      }
    }
  }

  lemma {:induction false} AllRegular(ms: seq<Message>)
    requires forall m :: m in Answers(ms) ==> Regular(m)
    requires forall m :: m in ms && IsAcknowledge(m) ==> Regular(m)
    ensures forall m :: m in ms ==> Regular(m)
  {
    if ms != [] {
      var rest, answers := Answers(ms[1..]), Answers(ms);
      assert forall m :: m in rest ==> m in answers;
      AllRegular(ms[1..]);
      if !IsAcknowledge(ms[0]) {
        assert answers[0] == ms[0];
        assert ms[0] in answers;
      }
    }
  }

  lemma {:induction false} AcknowledgesAreRegular(r: Reception, clocks: seq<Clock>)
    ensures forall m :: m in Run(r, clocks).1 && IsAcknowledge(m) ==> Regular(m)
    decreases clocks
  {
    if clocks != [] {
      var c := clocks[0];
      var (s, ms) := AfterClock(r, c);
      AcknowledgesAreRegular(s, clocks[1..]);
      BeatHasNoAcknowledges(r, c);
      assert forall m :: m in Acknowledgements(c) ==> Regular(m);
    }
  }

  lemma BeatHasNoAcknowledges(r: Reception, c: Clock)
    ensures forall m :: m in AfterClock(r, c).1 && IsAcknowledge(m) ==> m in Acknowledgements(c)
  {
  }

  // Any packets, cut into beats, spread over the clocks with pauses, with commands acknowledged in between: the host
  // performs exactly what the delivered packets ask for, in order.
  lemma HostPerformsPackets(ps: seq<Packet>, clocks: seq<Clock>)
    requires forall p :: p in ps ==> WellFormed(p)
    requires Shows(Transferred(clocks), AllBeats(ps))
    ensures forall m :: m in Run(Idle, clocks).1 ==> Regular(m)
    ensures var events := AnswerEvents(Parse(StreamOf(Run(Idle, clocks).1)));
            |events| == |Delivered(ps)| && forall i :: 0 <= i < |events| ==> events[i] == Meaning(Delivered(ps)[i])
  {
    MonitorSendsPackets(ps, clocks);
    var ms, delivered := Run(Idle, clocks).1, Delivered(ps);
    var answers := Answers(ms);
    forall i | 0 <= i < |delivered|
      ensures Regular(answers[i]) && EventOf(answers[i]) == Meaning(delivered[i])
    {
      assert delivered[i] in ps;
      MessageMeansPacket(delivered[i], answers[i].id);
    }
    AcknowledgesAreRegular(Idle, clocks);
    AllRegular(ms);
    HostParsesMessages(ms);
    AnswersHaveAnswerEvents(ms);
  }
  // The acknowledges among the events.
  ghost function AcknowledgesIn(events: seq<HostEvent>): seq<HostEvent> {
    if events == [] then []
    else (if events[0].CompletionAcknowledged? || events[0].WriteAcknowledged? then [events[0]] else [])
         + AcknowledgesIn(events[1..])
  }

  // What the acknowledge lines showed, clock by clock.
  ghost function Acknowledged(clocks: seq<Clock>): seq<HostEvent> {
    if clocks == [] then []
    else
      (if clocks[0].writeDone then [WriteAcknowledged] else [])
      + (if clocks[0].cmplDone then [CompletionAcknowledged] else [])
      + Acknowledged(clocks[1..])
  }

  lemma {:induction false} EventsAppend(a: seq<Message>, b: seq<Message>)
    requires forall m :: m in a + b ==> Regular(m)
    ensures (forall m :: m in a ==> Regular(m)) && (forall m :: m in b ==> Regular(m))
    ensures EventsOf(a + b) == EventsOf(a) + EventsOf(b)
  {
    assert forall m :: m in a ==> m in a + b;
    assert forall m :: m in b ==> m in a + b;
  }

  lemma {:induction false} AcknowledgesAppend(a: seq<HostEvent>, b: seq<HostEvent>)
    ensures AcknowledgesIn(a + b) == AcknowledgesIn(a) + AcknowledgesIn(b)
  {
    hide AcknowledgesIn;
    AcknowledgesUnfold(a);
    AcknowledgesUnfold(a + b);
    if a == [] {
      assert a + b == b;
    } else {
      assert (a + b)[0] == a[0] && (a + b)[1..] == a[1..] + b;
      AcknowledgesAppend(a[1..], b);
    }
  }

  lemma AcknowledgesUnfold(events: seq<HostEvent>)
    ensures events == [] ==> AcknowledgesIn(events) == []
    ensures events != [] ==>
              var own := if events[0].CompletionAcknowledged? || events[0].WriteAcknowledged? then [events[0]] else [];
              AcknowledgesIn(events) == own + AcknowledgesIn(events[1..])
  {
  }

  lemma BeatEventsAreNone(r: Reception, b: Beat, id: uint32)
    requires forall m :: m in AfterBeat(r, b, id).1 ==> Regular(m)
    ensures AcknowledgesIn(EventsOf(AfterBeat(r, b, id).1)) == []
  {
    BeatMessagesAreAnswers(r, b, id);
    NoneAmongAnswers(AfterBeat(r, b, id).1);
  }

  lemma {:induction false} NoneAmongAnswers(ms: seq<Message>)
    requires (forall m :: m in ms ==> Regular(m)) && Answers(ms) == ms
    ensures AcknowledgesIn(EventsOf(ms)) == []
  {
    hide Regular, EventOf;
    if ms != [] {
      FirstIsAnswer(ms);
      AcknowledgeEvents(ms[0]);
      NoneAmongAnswers(ms[1..]);
      assert EventsOf(ms)[1..] == EventsOf(ms[1..]);
    }
  }

  lemma FirstIsAnswer(ms: seq<Message>)
    requires ms != [] && Answers(ms) == ms
    ensures !IsAcknowledge(ms[0]) && Answers(ms[1..]) == ms[1..]
  {
    AnswersNotLonger(ms[1..]);
    assert ms[1..] == Answers(ms)[1..];
  }

  lemma {:induction false} AnswersNotLonger(ms: seq<Message>)
    ensures |Answers(ms)| <= |ms|
  {
    if ms != [] {
      AnswersNotLonger(ms[1..]);
    }
  }

  lemma ClockEvents(r: Reception, c: Clock)
    requires forall m :: m in AfterClock(r, c).1 ==> Regular(m)
    ensures AcknowledgesIn(EventsOf(AfterClock(r, c).1)) == Acknowledged([c])
  {
    hide AfterBeat;
    var ms := if c.beat.Some? then AfterBeat(r, c.beat.value, c.id).1 else [];
    EventsAppend(ms, Acknowledgements(c));
    AcknowledgesAppend(EventsOf(ms), EventsOf(Acknowledgements(c)));
    if c.beat.Some? {
      BeatEventsAreNone(r, c.beat.value, c.id);
    }
    OwnEvents(c);
  }

  lemma OwnEvents(c: Clock)
    ensures forall m :: m in Acknowledgements(c) ==> Regular(m)
    ensures AcknowledgesIn(EventsOf(Acknowledgements(c))) == Acknowledged([c])
  {
    var write := if c.writeDone then [Message(CMD_ACK_WRITE, c.id, [])] else [];
    var cmpl := if c.cmplDone then [Message(CMD_ACK_CMPL, c.id, [])] else [];
    OwnEvent(write, c.writeDone, WriteAcknowledged);
    OwnEvent(cmpl, c.cmplDone, CompletionAcknowledged);
    EventsAppend(write, cmpl);
    AcknowledgesAppend(EventsOf(write), EventsOf(cmpl));
    assert [c][1..] == [];
  }

  lemma OwnEvent(ms: seq<Message>, given: bool, event: HostEvent)
    requires forall m :: m in ms ==> Regular(m) && EventOf(m) == event
    requires |ms| == (if given then 1 else 0)
    requires event.CompletionAcknowledged? || event.WriteAcknowledged?
    ensures AcknowledgesIn(EventsOf(ms)) == if given then [event] else []
  {
    if given {
      assert EventsOf(ms) == [event];
      assert [event][1..] == [];
    }
  }

  // Every acknowledge the device gives reaches the host once, in order, whatever else is under way.
  lemma {:induction false} AcknowledgesReachHost(r: Reception, clocks: seq<Clock>)
    requires forall m :: m in Run(r, clocks).1 ==> Regular(m)
    ensures AcknowledgesIn(Parse(StreamOf(Run(r, clocks).1))) == Acknowledged(clocks)
    decreases clocks
  {
    hide AfterClock, EventsOf, Parse, StreamOf, Regular;
    HostParsesMessages(Run(r, clocks).1);
    if clocks == [] {
      NoEvents();
    } else {
      var (s, ms) := AfterClock(r, clocks[0]);
      var ns := Run(s, clocks[1..]).1;
      EventsAppend(ms, ns);
      AcknowledgesReachHost(s, clocks[1..]);
      HostParsesMessages(ns);
      ClockEvents(r, clocks[0]);
      AcknowledgesAppend(EventsOf(ms), EventsOf(ns));
      AcknowledgedStep(clocks);
    }
  }

  lemma NoEvents()
    ensures AcknowledgesIn(EventsOf([])) == []
  {
  }

  lemma AcknowledgedStep(clocks: seq<Clock>)
    requires clocks != []
    ensures Acknowledged(clocks) == Acknowledged([clocks[0]]) + Acknowledged(clocks[1..])
  {
    assert [clocks[0]][1..] == [];
  }
}
