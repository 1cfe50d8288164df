/**
 * A run in which a FIN overtakes the data before it: the receiver ends its stream with nothing in it, counts the
 * FIN in its acknowledgement (tcp_receiver.cc:44-45), and the sender takes a byte for acknowledged that never arrived.
 */
module EarlyFin {
  import opened Numbers
  import opened WrappingIntegers
  import opened TcpSegment
  import opened ByteStream
  import opened ConnectionModel
  import opened ConnectionInvariant
  import opened EndToEnd
  import opened Acknowledgements
  import opened BareSyn
  import opened Received
  import A = Assembly
  import R = ReceiverModel
  import S = SenderModel

  const DATA := DataSegment([1, 2, 3, 4], false).At(Wrap(1, ISN))
  const FIN := DataSegment([], true).At(0)

  /** a has ended its stream and sent FIN after the four bytes. */
  function FinSender(): S.Sender {
    S.Sender(ISN, 1000, Stream([1, 2, 3, 4], 4, 10, true, false), 6, 1, 10, [DATA, FIN], 5, [],
             1000, 0, 0, true, true, true, true)
  }

  function FinOfA(): Segment { Stamp(OpenReceiver(0), FIN) }

  lemma SendsFin()
    ensures S.FillWindow(DataSender().(stream := Stream([1, 2, 3, 4], 4, 10, true, false)))
            == FinSender().(segmentsOut := [FIN])
  {
    var s := DataSender().(stream := Stream([1, 2, 3, 4], 4, 10, true, false));
    assert Wrap(5, ISN) == 0;
    assert S.Edge(s) == 11;
    assert S.FinAlone(s, 11) == FinSender().(segmentsOut := [FIN]);
  }

  lemma AEnds()
    ensures var a := Endpoint(OpenReceiver(0), DataSender(), []);
            Ready(a) && Step(a, Ends) == Endpoint(OpenReceiver(0), FinSender(), [FinOfA()])
  {
    var a := Endpoint(OpenReceiver(0), DataSender(), []);
    EmptyPush(A.Empty(10));
    SendsFin();
    var d := Endpoint(OpenReceiver(0), FinSender().(segmentsOut := [FIN]), []);
    assert Step(a, Ends) == Flush(d);
    StampOne(OpenReceiver(0), FIN);
    Flushes(d);
  }

  /** b has taken FIN and nothing before it. */
  function EarlyReceiver(): R.Receiver { R.Receiver(true, true, ISN, 2, A.Empty(10).(endIdx := 4, ended := true)) }

  lemma EarlyPush()
    ensures A.Valid(A.Empty(10)) && A.Cur(A.Empty(10)) == 0
    ensures A.Push(A.Empty(10), [], 4, true) == A.Empty(10).(endIdx := 4, ended := true)
    ensures A.Cur(A.Push(A.Empty(10), [], 4, true)) == 0
  {
    EmptyPush(A.Empty(10));
    A.PushHeld(A.Empty(10), [], 4, true);
    assert A.Accept(map[], [], 4, 4, 4) == map[];
  }

  lemma FinIndex(r: R.Receiver, seg: Segment)
    requires R.Representable(r) && r.isn == ISN && A.Cur(r.asm) == 0
    requires !seg.header.syn && seg.header.seqno == 0
    ensures R.StreamIndex(r, seg) == 4
  {
    assert Wrap(5, ISN) == 0;
    UnwrapInvertsWrap(5, ISN, 0);
  }

  lemma TakesFinAt(r: R.Receiver, seg: Segment, after: A.Assembly)
    requires R.Representable(r) && r.isn == ISN && r.syn && !r.fin && A.Cur(r.asm) == 0
    requires !seg.header.syn && seg.header.fin && seg.header.seqno == 0 && seg.payload == []
    requires after == A.Push(r.asm, [], 4, true) && after.ended && A.Cur(after) == 0
    ensures R.SegmentReceived(r, seg) == R.Receiver(true, true, ISN, 2, after)
  {
    FinIndex(R.Noted(r, seg), seg);
  }

  lemma TakesFin()
    ensures R.Representable(OpenReceiver(ISN)) && R.SegmentReceived(OpenReceiver(ISN), FinOfA()) == EarlyReceiver()
  {
    EarlyPush();
    TakesFinAt(OpenReceiver(ISN), FinOfA(), EarlyReceiver().asm);
  }

  function AckOfEarly(): Segment { Stamp(EarlyReceiver(), EMPTY_SEGMENT.At(1)) }

  lemma NothingNew()
    ensures S.AckReceived(OpenSender(0), 1, 10) == OpenSender(0)
  {
    assert Unwrap(1, 0, 1) == 1;
  }

  /** A flush once the peer has finished first switches lingering off. */
  lemma FlushesPassively(c: Connection)
    requires c.receiver.asm.ended && !c.sender.stream.Eof()
    ensures Flush(c) == c.(segmentsOut := c.segmentsOut + StampAll(c.receiver, c.sender.segmentsOut),
                           sender := c.sender.(segmentsOut := []), linger := false)
  {
  }

  lemma BEndsEarly()
    ensures var b := Endpoint(OpenReceiver(ISN), OpenSender(0), []);
            && Ready(b)
            && Step(b, Arrives(FinOfA())) == Endpoint(EarlyReceiver(), OpenSender(0), [AckOfEarly()]).(linger := false)
  {
    var b, seg := Endpoint(OpenReceiver(ISN), OpenSender(0), []), FinOfA();
    EmptyPush(A.Empty(10));
    WindowIsTen(0);
    assert Wrap(1, 0) == 1;
    TakesFin();
    NothingNew();
    var d := Endpoint(EarlyReceiver(), OpenSender(0), []);
    assert Deliver(b, seg) == d;
    StampOne(EarlyReceiver(), EMPTY_SEGMENT.At(1));
    FlushesPassively(QueueEmpty(d));
  }

  // ---- The run ----

  function Finished(): System {
    System(Endpoint(OpenReceiver(0), FinSender(), []), Established().b, Established().ab + {FinOfA()}, Established().ba)
  }

  /** The FIN has arrived ahead of the data: b's inbound stream is ended and empty, and b acknowledges it. */
  function Overtaken(): System {
    System(Finished().a, Endpoint(EarlyReceiver(), OpenSender(0), []).(linger := false),
           Finished().ab, Finished().ba + {AckOfEarly()})
  }

  lemma ReachFinished()
    ensures Reachable(Finished())
  {
    ReachEstablished();
    AEnds();
    ReachAtA(Established(), Ends, Endpoint(OpenReceiver(0), FinSender(), [FinOfA()]), Established().ab + {FinOfA()});
  }

  lemma ReachOvertaken()
    ensures Reachable(Overtaken())
  {
    ReachFinished();
    BEndsEarly();
    AnsweredByB(Finished(), FinOfA(), Endpoint(EarlyReceiver(), OpenSender(0), [AckOfEarly()]).(linger := false),
                AckOfEarly());
  }

  /** A run reaches a state in which a wrote four bytes and b's inbound stream is ended with none of them in it. */
  lemma FinOvertakesDataInRun()
    ensures Reachable(Overtaken())
    ensures var from, to := Overtaken().a.sender.stream, Overtaken().b.receiver;
            from.written == [1, 2, 3, 4] && to.asm.ended && to.asm.held == map[] && EndedEarly(from, to)
  {
    ReachOvertaken();
    EarlyPush();
  }

  lemma EarlyAckIsExchanged(a: Connection)
    requires a == Endpoint(OpenReceiver(0), FinSender(), [])
    ensures Exchanges(a, AckOfEarly()) && AckOfEarly().header.ack && Acked(a.sender, AckOfEarly().header.ackno) == 2
  {
    UnwrapInvertsWrap(2, ISN, 1);
  }

  /**
   * The acknowledgement arrives, with its ACK flag, and is taken: within what b acknowledges, a counts its first
   * byte as acknowledged, and b has received no byte at all.
   */
  lemma EarlyFinAcknowledgesUnreceived() returns (sys: System)
    ensures Reachable(sys)
    ensures sys.a.sender.rcvBase == 2 == sys.b.receiver.rcvBase && sys.b.receiver.asm.held == map[]
    ensures AckOfEarly().header.ack && BadAck(Overtaken(), AtA(Arrives(AckOfEarly())))
  {
    var before, e := Overtaken(), Arrives(AckOfEarly());
    FinOvertakesDataInRun();
    ReachableIsInv(before);
    var c := Step(before.a, e);
    EarlyAckIsExchanged(before.a);
    StepMoves(before.a, e);
    sys := System(Collect(c), before.b, before.ab + (set seg | seg in c.segmentsOut), before.ba);
    ReachAtA(before, e, c, sys.ab);
  }
}
