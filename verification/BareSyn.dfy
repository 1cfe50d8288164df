/**
 * A run in which data is taken for acknowledged that never arrived: after an ordinary handshake, a repeated SYN
 * without the ACK flag carries acknowledgement number zero, and tcp_connection.cc:70 hands that to the sender.
 */
module BareSyn {
  import opened Numbers
  import opened WrappingIntegers
  import opened TcpSegment
  import opened Options
  import opened ByteStream
  import opened ConnectionModel
  import opened ConnectionInvariant
  import opened EndToEnd
  import opened Acknowledgements
  import A = Assembly
  import R = ReceiverModel
  import S = SenderModel

  /** The ISN of the side that is misled: zero is its fifth sequence number. */
  const ISN: u32 := TWO_32 - 5

  // ---- The sender's states ----

  function SynSender(isn: u32): S.Sender {
    S.Sender(isn, 1000, Empty(10), 1, 0, 1, [SYN_SEGMENT.At(isn)], 1, [], 1000, 0, 0, true, true, true, false)
  }

  function OpenSender(isn: u32): S.Sender {
    S.Sender(isn, 1000, Empty(10), 1, 1, 10, [], 0, [], 1000, 0, 0, false, true, true, false)
  }

  lemma SendsSyn(isn: u32)
    ensures S.FillWindow(S.Fresh(10, 1000, isn)) == SynSender(isn).(segmentsOut := [SYN_SEGMENT.At(isn)])
  {
    assert Wrap(0, isn) == isn;
  }

  lemma SynAcknowledged(isn: u32)
    ensures S.AckReceived(SynSender(isn), Wrap(1, isn), 10) == OpenSender(isn)
  {
    UnwrapInvertsWrap(1, isn, 0);
    UnwrapInvertsWrap(0, isn, 1);
    var w := SynSender(isn).(window := 10, rcvBase := 1);
    assert Wrap(0, isn) == isn;
    assert S.EndOfFront(w) == 1;
    assert S.DropFront(w).outstanding == [];
    assert S.DropAcked(w, 1) == S.DropFront(w);
    assert S.SendAll(OpenSender(isn), 11) == OpenSender(isn);
    assert S.FillWindow(OpenSender(isn)) == OpenSender(isn);
  }

  // ---- The receiver's states ----

  function OpenReceiver(isn: u32): R.Receiver { R.Receiver(true, false, isn, 1, A.Empty(10)) }

  lemma EmptyPush(a: A.Assembly)
    requires a == A.Empty(10)
    ensures A.Valid(a) && A.Cur(a) == 0 && A.Push(a, [], 0, false) == a
  {
  }

  lemma TakesSyn(isn: u32, seg: Segment)
    requires seg.header.syn && !seg.header.fin && seg.payload == [] && seg.header.seqno == isn
    ensures R.Representable(R.Fresh(10)) && R.SegmentReceived(R.Fresh(10), seg) == OpenReceiver(isn)
  {
    EmptyPush(A.Empty(10));
  }

  lemma TakesNothing(isn: u32, seg: Segment)
    requires !seg.header.syn && !seg.header.fin && seg.payload == [] && seg.header.seqno == Wrap(1, isn)
    ensures R.Representable(OpenReceiver(isn)) && R.SegmentReceived(OpenReceiver(isn), seg) == OpenReceiver(isn)
  {
    EmptyPush(A.Empty(10));
    UnwrapInvertsWrap(1, isn, 0);
  }

  // ---- The connections ----

  function Endpoint(r: R.Receiver, s: S.Sender, out: seq<Segment>): Connection {
    Connection(1000, r, s, out, true, 0, true)
  }

  /** A flush while nothing has ended only moves the queue. */
  lemma Flushes(c: Connection)
    requires !c.receiver.asm.ended
    ensures Flush(c) == c.(segmentsOut := c.segmentsOut + StampAll(c.receiver, c.sender.segmentsOut),
                           sender := c.sender.(segmentsOut := []))
  {
  }

  function SynOfB(): Segment { SYN_SEGMENT.At(0) }

  function SynAckOfA(): Segment { Stamp(OpenReceiver(0), SYN_SEGMENT.At(ISN)) }

  function AckOfB(): Segment { Stamp(OpenReceiver(ISN), EMPTY_SEGMENT.At(1)) }

  function DataOfA(): Segment { Stamp(OpenReceiver(0), DataSegment([1, 2, 3, 4], false).At(Wrap(1, ISN))) }

  function DataSender(): S.Sender {
    S.Sender(ISN, 1000, Stream([1, 2, 3, 4], 4, 10, false, false), 5, 1, 10,
             [DataSegment([1, 2, 3, 4], false).At(Wrap(1, ISN))], 4, [], 1000, 0, 0, true, true, true, false)
  }

  lemma WindowIsTen(isn: u32)
    ensures R.WindowSize(OpenReceiver(isn)) == 10 && R.Ackno(OpenReceiver(isn)) == Some(Wrap(1, isn))
  {
    EmptyPush(A.Empty(10));
  }

  lemma StampOne(r: R.Receiver, seg: Segment)
    ensures StampAll(r, [seg]) == [Stamp(r, seg)]
  {
  }

  lemma BConnects()
    ensures var b := Fresh(10, 10, 1000, 0);
            Ready(b) && Step(b, Connects) == Endpoint(R.Fresh(10), SynSender(0), [SynOfB()])
  {
    var b := Fresh(10, 10, 1000, 0);
    EmptyPush(A.Empty(10));
    SendsSyn(0);
    StampOne(b.receiver, SynOfB());
    Flushes(b.(sender := S.FillWindow(b.sender)));
  }

  lemma AListens()
    ensures var a := Fresh(10, 10, 1000, ISN);
            Ready(a) && Step(a, Arrives(SynOfB())) == Endpoint(OpenReceiver(0), SynSender(ISN), [SynAckOfA()])
  {
    var a := Fresh(10, 10, 1000, ISN);
    EmptyPush(A.Empty(10));
    TakesSyn(0, SynOfB());
    SendsSyn(ISN);
    StampOne(OpenReceiver(0), SYN_SEGMENT.At(ISN));
    Flushes(a.(receiver := OpenReceiver(0), sender := S.FillWindow(a.sender)));
  }

  lemma BOpens()
    ensures var b := Endpoint(R.Fresh(10), SynSender(0), []);
            Ready(b) && Step(b, Arrives(SynAckOfA())) == Endpoint(OpenReceiver(ISN), OpenSender(0), [AckOfB()])
  {
    var b, seg := Endpoint(R.Fresh(10), SynSender(0), []), SynAckOfA();
    EmptyPush(A.Empty(10));
    WindowIsTen(0);
    TakesSyn(ISN, seg);
    SynAcknowledged(0);
    assert Wrap(1, 0) == 1;
    var d := Endpoint(OpenReceiver(ISN), OpenSender(0), []);
    assert Deliver(b, seg) == d;
    StampOne(OpenReceiver(ISN), EMPTY_SEGMENT.At(1));
    Flushes(QueueEmpty(d));
  }

  lemma AOpens()
    ensures var a := Endpoint(OpenReceiver(0), SynSender(ISN), []);
            Ready(a) && Step(a, Arrives(AckOfB())) == Endpoint(OpenReceiver(0), OpenSender(ISN), [])
  {
    var a, seg := Endpoint(OpenReceiver(0), SynSender(ISN), []), AckOfB();
    WindowIsTen(ISN);
    WindowIsTen(0);
    assert Wrap(1, 0) == 1;
    TakesNothing(0, seg);
    SynAcknowledged(ISN);
    var d := Endpoint(OpenReceiver(0), OpenSender(ISN), []);
    assert Deliver(a, seg) == d;
    Flushes(d);
  }

  lemma SendsData()
    ensures S.FillWindow(OpenSender(ISN).(stream := Stream([1, 2, 3, 4], 0, 10, false, false)))
            == DataSender().(segmentsOut := [DataSegment([1, 2, 3, 4], false).At(Wrap(1, ISN))])
  {
    var s := OpenSender(ISN).(stream := Stream([1, 2, 3, 4], 0, 10, false, false));
    var t := DataSender().(segmentsOut := [DataSegment([1, 2, 3, 4], false).At(Wrap(1, ISN))]);
    assert s.stream.Peek(10) == [1, 2, 3, 4];
    assert S.SendData(s, 10) == t;
    assert S.Edge(s) == 11 && S.Free(s, 11) == 10;
    assert S.SendAll(t, 11) == t;
    assert S.SendAll(s, 11) == t;
  }

  lemma AWrites()
    ensures var a := Endpoint(OpenReceiver(0), OpenSender(ISN), []);
            Ready(a) && Step(a, Writes([1, 2, 3, 4])) == Endpoint(OpenReceiver(0), DataSender(), [DataOfA()])
  {
    var a := Endpoint(OpenReceiver(0), OpenSender(ISN), []);
    EmptyPush(A.Empty(10));
    assert Empty(10).Write([1, 2, 3, 4]) == Stream([1, 2, 3, 4], 0, 10, false, false);
    SendsData();
    StampOne(OpenReceiver(0), DataSegment([1, 2, 3, 4], false).At(Wrap(1, ISN)));
    Flushes(a.(sender := DataSender().(segmentsOut := [DataSegment([1, 2, 3, 4], false).At(Wrap(1, ISN))])));
  }

  // ---- The run ----

  ghost predicate Reachable(sys: System) {
    exists states: seq<System>, acts: seq<Action> :: IsRun(states, acts) && states[|acts|] == sys
  }

  lemma ReachStart(sys: System)
    requires Starts(sys)
    ensures Reachable(sys)
  {
    assert IsRun([sys], []);
  }

  lemma RunExtends(states: seq<System>, acts: seq<Action>, act: Action, next: System)
    requires IsRun(states, acts) && Acts(states[|acts|], act, next)
    ensures IsRun(states + [next], acts + [act])
  {
    var more, all := states + [next], acts + [act];
    forall i | 0 <= i < |all|
      ensures Acts(more[i], all[i], more[i + 1])
    {
      if i < |acts| {
        assert more[i] == states[i] && more[i + 1] == states[i + 1] && all[i] == acts[i];
      }
    }
  }

  lemma ReachNext(sys: System, act: Action, next: System)
    requires Reachable(sys) && Acts(sys, act, next)
    ensures Reachable(next)
  {
    var states: seq<System>, acts: seq<Action> :| IsRun(states, acts) && states[|acts|] == sys;
    RunExtends(states, acts, act, next);
    assert (states + [next])[|acts + [act]|] == next;
  }

  /** One more call at a, which leaves the connection at c before its segments are taken away. */
  lemma ReachAtA(sys: System, e: Event, c: Connection, ab: set<Segment>)
    requires Reachable(sys) && Ready(sys.a) && Enabled(sys.a, e) && c == Step(sys.a, e)
    requires e.Arrives? ==> e.seg in sys.ba
    requires ab == sys.ab + (set seg | seg in c.segmentsOut)
    ensures Reachable(System(Collect(c), sys.b, ab, sys.ba))
  {
    ReachNext(sys, AtA(e), System(Collect(c), sys.b, ab, sys.ba));
  }

  lemma ReachAtB(sys: System, e: Event, c: Connection, ba: set<Segment>)
    requires Reachable(sys) && Ready(sys.b) && Enabled(sys.b, e) && c == Step(sys.b, e)
    requires e.Arrives? ==> e.seg in sys.ab
    requires ba == sys.ba + (set seg | seg in c.segmentsOut)
    ensures Reachable(System(sys.a, Collect(c), sys.ab, ba))
  {
    ReachNext(sys, AtB(e), System(sys.a, Collect(c), sys.ab, ba));
  }

  /** A segment arrives at a, and is answered with one. */
  lemma AnsweredByA(sys: System, seg: Segment, c: Connection, out: Segment)
    requires Reachable(sys) && seg in sys.ba && Ready(sys.a)
    requires c == Step(sys.a, Arrives(seg)) && c.segmentsOut == [out]
    ensures Reachable(System(Collect(c), sys.b, sys.ab + {out}, sys.ba))
  {
    ReachAtA(sys, Arrives(seg), c, sys.ab + {out});
  }

  lemma AnsweredByB(sys: System, seg: Segment, c: Connection, out: Segment)
    requires Reachable(sys) && seg in sys.ab && Ready(sys.b)
    requires c == Step(sys.b, Arrives(seg)) && c.segmentsOut == [out]
    ensures Reachable(System(sys.a, Collect(c), sys.ab, sys.ba + {out}))
  {
    ReachAtB(sys, Arrives(seg), c, sys.ba + {out});
  }

  function Connecting(): System {
    System(Fresh(10, 10, 1000, ISN), Endpoint(R.Fresh(10), SynSender(0), []), {}, {SynOfB()})
  }

  function Answered(): System {
    System(Endpoint(OpenReceiver(0), SynSender(ISN), []), Connecting().b,
           Connecting().ab + {SynAckOfA()}, Connecting().ba)
  }

  function HalfOpen(): System {
    System(Answered().a, Endpoint(OpenReceiver(ISN), OpenSender(0), []), Answered().ab, Answered().ba + {AckOfB()})
  }

  function Open(): System {
    System(Endpoint(OpenReceiver(0), OpenSender(ISN), []), HalfOpen().b, HalfOpen().ab, HalfOpen().ba)
  }

  /** a has written four bytes, b has received none of them, and b's first SYN is still about. */
  function Established(): System {
    System(Endpoint(OpenReceiver(0), DataSender(), []), Open().b, Open().ab + {DataOfA()}, Open().ba)
  }

  lemma ReachConnecting()
    ensures Reachable(Connecting())
  {
    var sys := System(Fresh(10, 10, 1000, ISN), Fresh(10, 10, 1000, 0), {}, {});
    ReachStart(sys);
    BConnects();
    ReachAtB(sys, Connects, Endpoint(R.Fresh(10), SynSender(0), [SynOfB()]), {SynOfB()});
  }

  lemma ReachAnswered()
    ensures Reachable(Answered())
  {
    ReachConnecting();
    AListens();
    AnsweredByA(Connecting(), SynOfB(), Endpoint(OpenReceiver(0), SynSender(ISN), [SynAckOfA()]), SynAckOfA());
  }

  lemma ReachHalfOpen()
    ensures Reachable(HalfOpen())
  {
    ReachAnswered();
    BOpens();
    AnsweredByB(Answered(), SynAckOfA(), Endpoint(OpenReceiver(ISN), OpenSender(0), [AckOfB()]), AckOfB());
  }

  lemma ReachOpen()
    ensures Reachable(Open())
  {
    ReachHalfOpen();
    AOpens();
    ReachAtA(HalfOpen(), Arrives(AckOfB()), Endpoint(OpenReceiver(0), OpenSender(ISN), []), HalfOpen().ab);
  }

  lemma ReachEstablished()
    ensures Reachable(Established())
  {
    ReachOpen();
    AWrites();
    ReachAtA(Open(), Writes([1, 2, 3, 4]), Endpoint(OpenReceiver(0), DataSender(), [DataOfA()]),
             Open().ab + {DataOfA()});
  }

  lemma ReachableIsInv(sys: System)
    requires Reachable(sys)
    ensures SystemInv(sys) && Ready(sys.a) && Ready(sys.b)
  {
    var states: seq<System>, acts: seq<Action> :| IsRun(states, acts) && states[|acts|] == sys;
    RunKeepsInv(states, acts, |acts|);
    AlwaysReady(states, acts, |acts|);
  }

  lemma ZeroIsFive()
    ensures Unwrap(0, ISN, 1) == 5
  {
  }

  lemma SynIsExchanged(a: Connection)
    requires a == Endpoint(OpenReceiver(0), DataSender(), [])
    ensures Exchanges(a, SynOfB()) && Acked(a.sender, 0) == 5
  {
    ZeroIsFive();
  }

  /**
   * The SYN arrives a second time: a takes its four bytes for acknowledged, and forgets them, while b has
   * received nothing after SYN.
   */
  lemma BareSynAcknowledgesUnreceived() returns (sys: System)
    ensures Reachable(sys)
    ensures sys.a.sender.rcvBase == 5 && [1, 2, 3, 4] <= sys.a.sender.stream.written
    ensures sys.b.receiver.rcvBase == 1 && A.Output(sys.b.receiver.asm) == []
  {
    var before := Established();
    ReachEstablished();
    ReachableIsInv(before);
    var c := Step(before.a, Arrives(SynOfB()));
    SynIsExchanged(before.a);
    StepMoves(before.a, Arrives(SynOfB()));
    StepKeepsInv(before.a, Arrives(SynOfB()));
    EmptyPush(A.Empty(10));
    sys := System(Collect(c), before.b, before.ab + (set seg | seg in c.segmentsOut), before.ba);
    ReachAtA(before, Arrives(SynOfB()), c, sys.ab);
  }
}
