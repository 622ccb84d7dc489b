/**
 Packets, however interrupted by idle clocks and acknowledges, become their messages in order, all but 32-bit writes of
 one word.
 */
module Link {
  import opened Options
  import opened Words
  import opened ByteOrder
  import opened Tlp
  import opened TrnMonitor

  // The beats that were transferred, each with the command id current at its clock.
  function Transferred(clocks: seq<Clock>): seq<(Beat, uint32)> {
    if clocks == [] then []
    else (if clocks[0].beat.Some? then [(clocks[0].beat.value, clocks[0].id)] else []) + Transferred(clocks[1..])
  }

  function RunBeats(r: Reception, bs: seq<(Beat, uint32)>): (Reception, seq<Message>)
    decreases bs
  {
    if bs == [] then (r, [])
    else
      var (s, ms) := AfterBeat(r, bs[0].0, bs[0].1);
      var (t, ns) := RunBeats(s, bs[1..]);
      (t, ms + ns)
  }

  predicate IsAcknowledge(m: Message) {
    m.command == CMD_ACK_WRITE || m.command == CMD_ACK_CMPL
  }

  function Answers(ms: seq<Message>): seq<Message> {
    if ms == [] then [] else (if IsAcknowledge(ms[0]) then [] else [ms[0]]) + Answers(ms[1..])
  }

  lemma {:induction false} AnswersAppend(a: seq<Message>, b: seq<Message>)
    ensures Answers(a + b) == Answers(a) + Answers(b)
  {
    if a == [] {
      assert a + b == b;
    } else {
      assert (a + b)[1..] == a[1..] + b;
      AnswersAppend(a[1..], b);
    }
  }

  lemma BeatMessagesAreAnswers(r: Reception, b: Beat, id: uint32)
    ensures Answers(AfterBeat(r, b, id).1) == AfterBeat(r, b, id).1
  {
    var ns := AfterHeader(b, id).1;
    assert Answers(ns) == ns;
    if r.Receiving? {
      var ms := AfterData(r, b).1;
      assert Answers(ms) == ms;
      AnswersAppend(ms, ns);
    }
  }

  lemma AcknowledgementsAreNoAnswers(c: Clock)
    ensures Answers(Acknowledgements(c)) == []
  {
    var write := if c.writeDone then [Message(CMD_ACK_WRITE, c.id, [])] else [];
    var cmpl := if c.cmplDone then [Message(CMD_ACK_CMPL, c.id, [])] else [];
    AnswersAppend(write, cmpl);
  }

  lemma ClockIsBeatAndAcknowledges(r: Reception, c: Clock)
    ensures var (s, ms) := AfterClock(r, c);
            (s, Answers(ms)) == if c.beat.Some? then AfterBeat(r, c.beat.value, c.id) else (r, [])
  {
    AcknowledgementsAreNoAnswers(c);
    hide AfterBeat, Acknowledgements;
    var ms := if c.beat.Some? then AfterBeat(r, c.beat.value, c.id).1 else [];
    AnswersAppend(ms, Acknowledgements(c));
    if c.beat.Some? {
      BeatMessagesAreAnswers(r, c.beat.value, c.id);
    }
    assert ms + [] == ms;
  }

  // Idle clocks and acknowledges do not disturb reception.
  lemma {:induction false} RunIsBeatsAndAcknowledges(r: Reception, clocks: seq<Clock>)
    ensures Run(r, clocks).0 == RunBeats(r, Transferred(clocks)).0
    ensures Answers(Run(r, clocks).1) == RunBeats(r, Transferred(clocks)).1
    decreases clocks
  {
    if clocks != [] {
      var c, rest := clocks[0], clocks[1..];
      ClockIsBeatAndAcknowledges(r, c);
      hide AfterBeat, AfterClock;
      var (s, ms) := AfterClock(r, c);
      RunIsBeatsAndAcknowledges(s, rest);
      AnswersAppend(ms, Run(s, rest).1);
      var bs := Transferred(clocks);
      if c.beat.Some? {
        assert bs[0] == (c.beat.value, c.id) && bs[1..] == Transferred(rest);
      } else {
        assert bs == Transferred(rest);
      }
    }
  }

  lemma {:induction false} RunBeatsAppend(r: Reception, a: seq<(Beat, uint32)>, b: seq<(Beat, uint32)>)
    ensures var (s, ms) := RunBeats(r, a);
            var (t, ns) := RunBeats(s, b);
            RunBeats(r, a + b) == (t, ms + ns)
    decreases a
  {
    if a == [] {
      assert a + b == b;
      assert [] + RunBeats(r, b).1 == RunBeats(r, b).1;
    } else {
      hide AfterBeat;
      assert (a + b)[1..] == a[1..] + b && (a + b)[0] == a[0];
      var (u, ks) := AfterBeat(r, a[0].0, a[0].1);
      RunBeatsAppend(u, a[1..], b);
      var (s, ms) := RunBeats(u, a[1..]);
      assert ks + (ms + RunBeats(s, b).1) == (ks + ms) + RunBeats(s, b).1;
    }
  }

  // The sequence of beats, without the ids.
  ghost predicate Shows(bs: seq<(Beat, uint32)>, beats: seq<Beat>) {
    |bs| == |beats| && forall i :: 0 <= i < |bs| ==> bs[i].0 == beats[i]
  }

  lemma JoinHolds(high: uint32, low: uint32)
    ensures High32(Join64(high, low)) == high && Low32(Join64(high, low)) == low
  {
  }

  // What the first data beat of a payload carries.
  lemma DataBeatCarries(data: seq<uint32>)
    requires data != []
    ensures var b := FirstDataBeat(data);
            && Taken(b) == (if |data| <= 4 then |data| else 4)
            && Payload(b)[..Taken(b)] == data[..Taken(b)]
  {
    hide Swap32, Join64, High32, Low32;
    var b := FirstDataBeat(data);
    JoinHolds(WireWord(data, 0), WireWord(data, 1));
    JoinHolds(WireWord(data, 2), WireWord(data, 3));
    var words := Payload(b);
    SwapTwice(data[0]);
    assert words[0] == data[0];
    if |data| > 1 {
      SwapTwice(data[1]);
      assert words[1] == data[1];
    }
    if |data| > 2 {
      SwapTwice(data[2]);
      assert words[2] == data[2];
    }
    if |data| > 3 {
      SwapTwice(data[3]);
      assert words[3] == data[3];
    }
  }

  // One data beat of a packet under way.
  lemma DataBeatIsReceived(r: Reception, data: seq<uint32>, id: uint32)
    requires r.Receiving? && data != [] && r.left == |data| && r.size == |r.body| + |data|
    ensures AfterBeat(r, FirstDataBeat(data), id) ==
              if |data| <= 4 then (Idle, [Message(CMD_WRITE_TO_HOST, r.id, r.body + data)])
              else (r.(left := |data| - 4, body := r.body + data[..4]), [])
  {
    DataBeatCarries(data);
    hide Payload, Taken, AfterHeader, WireWord, Join64;
    if |data| <= 4 {
      assert data[..|data|] == data;
    }
  }

  // A beat that completes nothing leaves the rest of the run to the new state; one that ends the run sends its message.
  lemma RunBeatsStep(r: Reception, bs: seq<(Beat, uint32)>, s: Reception, ms: seq<Message>)
    requires bs != [] && AfterBeat(r, bs[0].0, bs[0].1) == (s, ms)
    ensures ms == [] ==> RunBeats(r, bs) == RunBeats(s, bs[1..])
    ensures |bs| == 1 ==> RunBeats(r, bs) == (s, ms)
  {
    hide AfterBeat;
    var (t, ns) := RunBeats(s, bs[1..]);
    assert [] + ns == ns && ms + [] == ms;
  }

  lemma ShowsRest(bs: seq<(Beat, uint32)>, data: seq<uint32>)
    requires data != [] && Shows(bs, DataBeats(data))
    ensures bs != [] && bs[0].0 == FirstDataBeat(data)
    ensures |data| <= 4 ==> |bs| == 1
    ensures |data| > 4 ==> Shows(bs[1..], DataBeats(data[4..]))
  {
    hide *;
    DataBeatsUnfold(data);
    ShowsTail(bs, DataBeats(data));
  }

  lemma DataBeatsUnfold(data: seq<uint32>)
    requires data != []
    ensures var beats := DataBeats(data);
            && beats != [] && beats[0] == FirstDataBeat(data)
            && if |data| <= 4 then |beats| == 1 else beats[1..] == DataBeats(data[4..])
  {
    hide FirstDataBeat;
  }

  lemma ShowsTail(bs: seq<(Beat, uint32)>, beats: seq<Beat>)
    requires beats != [] && Shows(bs, beats)
    ensures |bs| == |beats| && bs[0].0 == beats[0] && Shows(bs[1..], beats[1..])
  {
  }

  lemma {:induction false} DataIsReceived(r: Reception, data: seq<uint32>, bs: seq<(Beat, uint32)>)
    requires r.Receiving? && data != [] && r.left == |data| && r.size == |r.body| + |data|
    requires Shows(bs, DataBeats(data))
    ensures RunBeats(r, bs) == (Idle, [Message(CMD_WRITE_TO_HOST, r.id, r.body + data)])
    decreases |data|
  {
    hide AfterBeat, FirstDataBeat, RunBeats, DataBeats, Shows;
    ShowsRest(bs, data);
    DataBeatIsReceived(r, data, bs[0].1);
    if |data| <= 4 {
      RunBeatsStep(r, bs, Idle, [Message(CMD_WRITE_TO_HOST, r.id, r.body + data)]);
    } else {
      var rest := data[4..];
      var s := r.(left := |data| - 4, body := r.body + data[..4]);
      RunBeatsStep(r, bs, s, []);
      DataIsReceived(s, rest, bs[1..]);
      assert r.body + data == s.body + rest;
    }
  }

  lemma HeaderHoldsFields(fmt: nat, misc: nat, length: nat)
    requires fmt < 0x80 && misc < 0x4000 && length < 0x400
    ensures var h := Header0(fmt, misc, length);
            h % 0x400 == length && h / 0x100_0000 % 0x80 == fmt
  {
  }

  lemma HeaderIsReceived(p: Packet, id: uint32)
    requires WellFormed(p)
    ensures var b := Beats(p)[0];
            && b.sof
            && AfterHeader(b, id) ==
               match p
               case Write64(_, _, addrHigh, addrLow, data) =>
                 (Receiving(|data|, |data| + 2, id, [addrHigh, addrLow]), [])
               case Write32(_, _, addr, data) =>
                 (Receiving(|data| - 1, |data| + 2, id, [0, addr, data[0]]), [])
               case _ => (Idle, [MessageOf(p, id)])
  {
    hide Header0, Join64, High32, Low32, Swap32;
    match p
    case Write64(misc, header1, addrHigh, addrLow, data) =>
      HeaderHoldsFields(FMT_MWR64, misc, |data|);
      JoinHolds(Header0(FMT_MWR64, misc, |data|), header1);
      JoinHolds(addrHigh, addrLow);
    case Write32(misc, header1, addr, data) =>
      HeaderHoldsFields(FMT_MWR32, misc, |data|);
      JoinHolds(Header0(FMT_MWR32, misc, |data|), header1);
      JoinHolds(addr, Swap32(data[0]));
      SwapTwice(data[0]);
    case Read64(misc, header1, addrHigh, addrLow, length) =>
      HeaderHoldsFields(FMT_MRD64, misc, length);
      JoinHolds(Header0(FMT_MRD64, misc, length), header1);
      JoinHolds(addrHigh, addrLow);
    case Read32(misc, header1, addr, length, unused) =>
      HeaderHoldsFields(FMT_MRD32, misc, length);
      JoinHolds(Header0(FMT_MRD32, misc, length), header1);
      JoinHolds(addr, unused);
    case Completion(misc, header1, header2, word) =>
      HeaderHoldsFields(FMT_CMPLD, misc, 1);
      JoinHolds(Header0(FMT_CMPLD, misc, 1), header1);
      JoinHolds(header2, Swap32(word));
      SwapTwice(word);
  }

  // A header that opens a reception, and then its data.
  lemma HeaderThenData(bs: seq<(Beat, uint32)>, s: Reception, data: seq<uint32>)
    requires bs != [] && AfterBeat(Idle, bs[0].0, bs[0].1) == (s, [])
    requires s.Receiving? && data != [] && s.left == |data| && s.size == |s.body| + |data|
    requires Shows(bs[1..], DataBeats(data))
    ensures RunBeats(Idle, bs) == (Idle, [Message(CMD_WRITE_TO_HOST, s.id, s.body + data)])
  {
    hide *;
    RunBeatsStep(Idle, bs, s, []);
    DataIsReceived(s, data, bs[1..]);
  }

  lemma Write64Opens(p: Packet, bs: seq<(Beat, uint32)>)
    requires WellFormed(p) && p.Write64? && Shows(bs, Beats(p))
    ensures bs != [] && Shows(bs[1..], DataBeats(p.data))
    ensures AfterBeat(Idle, bs[0].0, bs[0].1)
         == (Receiving(|p.data|, |p.data| + 2, bs[0].1, [p.addrHigh, p.addrLow]), [])
  {
    hide AfterHeader, DataBeats, Header0, Join64;
    HeaderIsReceived(p, bs[0].1);
  }

  lemma Write32Opens(p: Packet, bs: seq<(Beat, uint32)>)
    requires WellFormed(p) && p.Write32? && Shows(bs, Beats(p))
    ensures bs != [] && Shows(bs[1..], DataBeats(p.data[1..]))
    ensures AfterBeat(Idle, bs[0].0, bs[0].1)
         == (Receiving(|p.data| - 1, |p.data| + 2, bs[0].1, [0, p.addr, p.data[0]]), [])
  {
    hide AfterHeader, DataBeats, Header0, Join64, Swap32;
    HeaderIsReceived(p, bs[0].1);
  }

  lemma Write64IsReceived(p: Packet, bs: seq<(Beat, uint32)>)
    requires WellFormed(p) && p.Write64? && Shows(bs, Beats(p))
    ensures bs != [] && RunBeats(Idle, bs) == (Idle, [MessageOf(p, bs[0].1)])
  {
    hide AfterBeat, RunBeats, Beats, DataBeats, Shows;
    Write64Opens(p, bs);
    HeaderThenData(bs, Receiving(|p.data|, |p.data| + 2, bs[0].1, [p.addrHigh, p.addrLow]), p.data);
  }

  lemma Write32IsReceived(p: Packet, bs: seq<(Beat, uint32)>)
    requires WellFormed(p) && p.Write32? && !OneWordWrite(p) && Shows(bs, Beats(p))
    ensures bs != [] && RunBeats(Idle, bs) == (Idle, [MessageOf(p, bs[0].1)])
  {
    hide AfterBeat, RunBeats, Beats, DataBeats, Shows;
    Write32Opens(p, bs);
    HeaderThenData(bs, Receiving(|p.data| - 1, |p.data| + 2, bs[0].1, [0, p.addr, p.data[0]]), p.data[1..]);
    assert [0, p.addr, p.data[0]] + p.data[1..] == [0, p.addr] + p.data;
  }

  // The monitor is waiting for a packet, or still for data of one that is over.
  predicate Ready(r: Reception) {
    r.Idle? || r.left == 0
  }

  // A packet of one beat.
  lemma SingleBeatIsReceived(p: Packet, bs: seq<(Beat, uint32)>)
    requires WellFormed(p) && !p.Write64? && (p.Write32? ==> OneWordWrite(p)) && Shows(bs, Beats(p))
    ensures |bs| == 1 && bs[0].0.sof
    ensures AfterBeat(Idle, bs[0].0, bs[0].1) ==
              if OneWordWrite(p) then (Receiving(0, 3, bs[0].1, [0, p.addr, p.data[0]]), [])
              else (Idle, [MessageOf(p, bs[0].1)])
  {
    hide AfterHeader, Header0, Join64, Swap32;
    HeaderIsReceived(p, bs[0].1);
    if p.Write32? {
      assert p.data[1..] == [];
    }
  }

  // One packet, one message, except for a 32-bit write of one word: it ends in its header beat, where the monitor does
  // not look for the end of the frame, and the monitor goes on waiting for its data.
  lemma PacketIsReceived(p: Packet, bs: seq<(Beat, uint32)>)
    requires WellFormed(p) && Shows(bs, Beats(p))
    ensures bs != [] && Ready(RunBeats(Idle, bs).0)
    ensures RunBeats(Idle, bs) == if OneWordWrite(p) then (Receiving(0, 3, bs[0].1, [0, p.addr, p.data[0]]), [])
                                  else (Idle, [MessageOf(p, bs[0].1)])
  {
    hide AfterBeat, RunBeats, Beats, Shows, MessageOf;
    if p.Write64? {
      Write64IsReceived(p, bs);
    } else if p.Write32? && !OneWordWrite(p) {
      Write32IsReceived(p, bs);
    } else {
      SingleBeatIsReceived(p, bs);
      var (s, ms) := AfterBeat(Idle, bs[0].0, bs[0].1);
      RunBeatsStep(Idle, bs, s, ms);
    }
  }

  lemma FirstBeatTakesSome(p: Packet)
    requires WellFormed(p)
    ensures Beats(p) != [] && Beats(p)[0].sof && Taken(Beats(p)[0]) > 0
  {
  }

  // The next packet's header ends the waiting and is received like any other.
  lemma ReadyIsLikeIdle(r: Reception, p: Packet, bs: seq<(Beat, uint32)>)
    requires Ready(r) && WellFormed(p) && Shows(bs, Beats(p))
    ensures RunBeats(r, bs) == RunBeats(Idle, bs)
  {
    hide AfterHeader, Beats, RunBeats, Payload, Taken;
    FirstBeatTakesSome(p);
    var b, id := bs[0].0, bs[0].1;
    var (t, ns) := AfterHeader(b, id);
    assert [] + ns == ns;
    assert AfterBeat(r, b, id) == AfterBeat(Idle, b, id);
    RunBeatsUnfold(r, bs);
    RunBeatsUnfold(Idle, bs);
  }

  lemma RunBeatsUnfold(r: Reception, bs: seq<(Beat, uint32)>)
    requires bs != []
    ensures var (s, ms) := AfterBeat(r, bs[0].0, bs[0].1);
            var (t, ns) := RunBeats(s, bs[1..]);
            RunBeats(r, bs) == (t, ms + ns)
  {
    hide AfterBeat;
  }

  function AllBeats(ps: seq<Packet>): seq<Beat>
    requires forall p :: p in ps ==> WellFormed(p)
  {
    if ps == [] then [] else Beats(ps[0]) + AllBeats(ps[1..])
  }

  // The packets that make it to the host.
  function Delivered(ps: seq<Packet>): (r: seq<Packet>)
    ensures forall p :: p in r ==> p in ps
  {
    if ps == [] then [] else (if OneWordWrite(ps[0]) then [] else [ps[0]]) + Delivered(ps[1..])
  }

  // All do exactly when there is no 32-bit write of one word among them.
  lemma {:induction false} AllDeliveredExactlyWhen(ps: seq<Packet>)
    ensures |Delivered(ps)| <= |ps|
    ensures Delivered(ps) == ps <==> forall p :: p in ps ==> !OneWordWrite(p)
  {
    if ps != [] {
      var rest := ps[1..];
      AllDeliveredExactlyWhen(rest);
      assert ps == [ps[0]] + rest;
      if !OneWordWrite(ps[0]) {
        assert Delivered(ps)[1..] == Delivered(rest);
      } else {
        assert ps[0] in ps && |Delivered(ps)| < |ps|;
      }
    }
  }

  // The messages of the packets in order; only the ids are left open.
  ghost predicate Carries(ms: seq<Message>, ps: seq<Packet>)
    requires forall p :: p in ps ==> WellFormed(p)
  {
    |ms| == |ps| && forall i :: 0 <= i < |ms| ==> ms[i] == MessageOf(ps[i], ms[i].id)
  }

  lemma CarriesStep(ps: seq<Packet>, id: uint32, rest: seq<Message>)
    requires ps != [] && forall p :: p in ps ==> WellFormed(p)
    requires Carries(rest, Delivered(ps[1..]))
    ensures Carries((if OneWordWrite(ps[0]) then [] else [MessageOf(ps[0], id)]) + rest, Delivered(ps))
  {
    hide *;
    DeliveredStep(ps);
    if OneWordWrite(ps[0]) {
      assert [] + rest == rest;
    } else {
      CarriesOneMore(ps[0], id, rest, Delivered(ps[1..]));
    }
  }

  lemma DeliveredStep(ps: seq<Packet>)
    requires ps != []
    ensures Delivered(ps) == if OneWordWrite(ps[0]) then Delivered(ps[1..]) else [ps[0]] + Delivered(ps[1..])
  {
    hide OneWordWrite;
    assert [] + Delivered(ps[1..]) == Delivered(ps[1..]);
  }

  lemma CarriesOneMore(p: Packet, id: uint32, ms: seq<Message>, ps: seq<Packet>)
    requires WellFormed(p) && (forall q :: q in ps ==> WellFormed(q)) && Carries(ms, ps)
    ensures Carries([MessageOf(p, id)] + ms, [p] + ps)
  {
    hide WellFormed, MessageOf;
    MessageOfHasId(p, id);
    var all, packets := [MessageOf(p, id)] + ms, [p] + ps;
    forall i | 0 <= i < |all|
      ensures all[i] == MessageOf(packets[i], all[i].id)
    {
      if i > 0 {
        assert all[i] == ms[i - 1] && packets[i] == ps[i - 1];
      }
    }
  }

  lemma MessageOfHasId(p: Packet, id: uint32)
    requires WellFormed(p)
    ensures MessageOf(p, id).id == id
  {
  }

  lemma ShowsFirst(ps: seq<Packet>, bs: seq<(Beat, uint32)>) returns (n: nat)
    requires ps != [] && forall p :: p in ps ==> WellFormed(p)
    requires Shows(bs, AllBeats(ps))
    ensures n <= |bs| && Shows(bs[..n], Beats(ps[0])) && Shows(bs[n..], AllBeats(ps[1..]))
  {
    hide WellFormed, Beats;
    n := |Beats(ps[0])|;
  }

  lemma NothingIsReceived(r: Reception, ps: seq<Packet>, bs: seq<(Beat, uint32)>)
    requires ps == [] && Shows(bs, AllBeats(ps))
    ensures RunBeats(r, bs) == (r, []) && Carries([], Delivered(ps))
  {
  }

  lemma {:induction false} PacketsAreReceived(r: Reception, ps: seq<Packet>, bs: seq<(Beat, uint32)>)
    requires forall p :: p in ps ==> WellFormed(p)
    requires Ready(r) && Shows(bs, AllBeats(ps))
    ensures Ready(RunBeats(r, bs).0) && Carries(RunBeats(r, bs).1, Delivered(ps))
    decreases ps
  {
    hide *;
    if ps == [] {
      NothingIsReceived(r, ps, bs);
    } else {
      var n := ShowsFirst(ps, bs);
      var first, rest := bs[..n], bs[n..];
      assert bs == first + rest;
      ReadyIsLikeIdle(r, ps[0], first);
      PacketIsReceived(ps[0], first);
      var s := RunBeats(Idle, first).0;
      PacketsAreReceived(s, ps[1..], rest);
      RunBeatsAppend(r, first, rest);
      CarriesStep(ps, first[0].1, RunBeats(s, rest).1);
    }
  }

  // Any packets, spread over the clocks in any way, with commands being acknowledged meanwhile: besides the
  // acknowledges, the monitor sends exactly the messages of the delivered packets, in order, and is ready for the next
  // packet at the end.
  lemma MonitorSendsPackets(ps: seq<Packet>, clocks: seq<Clock>)
    requires forall p :: p in ps ==> WellFormed(p)
    requires Shows(Transferred(clocks), AllBeats(ps))
    ensures Ready(Run(Idle, clocks).0) && Carries(Answers(Run(Idle, clocks).1), Delivered(ps))
  {
    hide RunBeats, Run, Answers, AllBeats, Delivered, Carries, Transferred;
    RunIsBeatsAndAcknowledges(Idle, clocks);
    PacketsAreReceived(Idle, ps, Transferred(clocks));
  }
}
