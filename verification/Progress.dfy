/** What calls on a connection must achieve: fill the window, put everything on the wire, and take acknowledgements. */
module Progress {
  import opened Numbers
  import opened WrappingIntegers
  import opened TcpSegment
  import opened ConnectionModel
  import opened ConnectionInvariant
  import opened EndToEnd
  import opened Acknowledgements
  import opened Answers
  import A = Assembly
  import R = ReceiverModel
  import S = SenderModel
  import I = SenderInvariant
  import P = SenderProperties

  // ---- Calls fill the window ----

  lemma FillAndFlushFills(c: Connection)
    requires I.Inv(c.sender) && P.ReadyToSend(c.sender) && c.sender.nextSeqno <= P.WorkingEdge(c.sender)
    ensures var t := FillAndFlush(c).sender;
            P.Saturated(t, P.WorkingEdge(c.sender)) && t.segmentsOut == []
  {
    P.FillWindowFills(c.sender);
  }

  /**
   * After the application writes or ends its stream, nothing more can be sent, and nothing that could be is kept
   * back: the window is full, FIN is sent, or the stream is empty and not ended.
   */
  lemma CallsFill(c: Connection, e: Event)
    requires Inv(c) && Ready(c) && Enabled(c, e) && ((e.Writes? && e.data != []) || e.Ends?)
    requires P.ReadyToSend(c.sender) && c.sender.nextSeqno <= P.WorkingEdge(c.sender)
    ensures var t := Step(c, e).sender;
            P.Saturated(t, P.WorkingEdge(c.sender)) && t.segmentsOut == []
  {
    match e
    case Writes(data) =>
      I.WriteKeepsInv(c.sender, data);
      FillAndFlushFills(c.(sender := c.sender.(stream := c.sender.stream.Write(data))));
    case Ends =>
      I.EndInputKeepsInv(c.sender);
      FillAndFlushFills(c.(sender := c.sender.(stream := c.sender.stream.EndInput())));
  }

  /** Connecting sends a SYN, if none was sent. */
  lemma ConnectSendsSyn(c: Connection)
    requires Inv(c) && Ready(c) && !c.sender.synSent
    ensures var t := Connect(c);
            && t.sender.synSent && t.sender.nextSeqno == 1 && |c.segmentsOut| < |t.segmentsOut|
            && var last := t.segmentsOut[|t.segmentsOut| - 1];
               last.header.syn && last.Length() == 1 && last.header.seqno == Wrap(0, c.sender.isn)
  {
    var d := c.(sender := S.FillWindow(c.sender));
    var queued := d.sender.segmentsOut;
    assert queued == c.sender.segmentsOut + [SYN_SEGMENT.At(Wrap(0, c.sender.isn))];
    assert StampAll(d.receiver, queued)[|queued| - 1] == Stamp(d.receiver, queued[|queued| - 1]);
  }

  // ---- Whatever is in flight is on the wire ----

  /** The two carry the same part of the stream. */
  predicate SamePart(w: Segment, seg: Segment) {
    && w.payload == seg.payload && w.header.seqno == seg.header.seqno
    && w.header.syn == seg.header.syn && w.header.fin == seg.header.fin
  }

  ghost predicate Reaches(seg: Segment, net: set<Segment>) { exists w :: w in net && SamePart(w, seg) }

  /** Every segment in flight is queued, or on the wire. */
  ghost predicate OnItsWay(s: S.Sender, net: set<Segment>) {
    forall seg :: seg in s.outstanding ==> seg in s.segmentsOut || Reaches(seg, net)
  }

  /** What is newly in flight has been queued, and nothing has left the queue. */
  ghost predicate Queues(s: S.Sender, t: S.Sender) {
    && s.segmentsOut <= t.segmentsOut
    && forall seg :: seg in t.outstanding ==> seg in s.outstanding || seg in t.segmentsOut
  }

  lemma QueuesTransitive(s: S.Sender, t: S.Sender, u: S.Sender)
    requires Queues(s, t) && Queues(t, u)
    ensures Queues(s, u)
  {
  }

  lemma SendDataQueues(s: S.Sender, n: nat)
    requires s.stream.Valid()
    ensures Queues(s, S.SendData(s, n))
  {
  }

  lemma {:induction false} SendAllQueues(s: S.Sender, edge: u32)
    requires s.stream.Valid()
    ensures Queues(s, S.SendAll(s, edge))
    decreases s.stream.BufferSize()
  {
    if S.CanSend(s, edge) {
      var t := S.SendData(s, Min(S.Free(s, edge), S.MAX_PAYLOAD_SIZE));
      SendDataQueues(s, Min(S.Free(s, edge), S.MAX_PAYLOAD_SIZE));
      SendAllQueues(t, edge);
      QueuesTransitive(s, t, S.SendAll(t, edge));
    }
  }

  lemma FillWindowQueues(s: S.Sender)
    requires s.stream.Valid()
    ensures Queues(s, S.FillWindow(s))
  {
    if s.synSent && !S.WaitingForSyn(s) && !s.finSent {
      var w := S.Widened(s);
      var f := S.FinAlone(w, S.Edge(w));
      assert Queues(s, f);
      SendAllQueues(f, S.Edge(w));
      QueuesTransitive(s, f, S.SendAll(f, S.Edge(w)));
    }
  }

  lemma {:induction false} DropAckedQueues(s: S.Sender, ack: u64)
    ensures Queues(s, S.DropAcked(s, ack))
    decreases |s.outstanding|
  {
    if s.outstanding != [] && ack >= S.EndOfFront(s) {
      DropAckedQueues(S.DropFront(s), ack);
      QueuesTransitive(s, S.DropFront(s), S.DropAcked(s, ack));
    }
  }

  lemma AckReceivedQueues(s: S.Sender, ackno: u32, win: u16)
    requires s.stream.Valid()
    ensures Queues(s, S.AckReceived(s, ackno, win))
  {
    var ack := Unwrap(ackno, s.isn, s.rcvBase);
    if s.rcvBase < ack <= s.nextSeqno {
      var w := s.(window := win, backOff := win != 0);
      DropAckedQueues(w.(rcvBase := ack % TWO_32), ack);
      var a := S.Advance(w, ack);
      assert Queues(s, a);
      FillWindowQueues(a);
      QueuesTransitive(s, a, S.FillWindow(a));
    }
  }

  function Wire(c: Connection, net: set<Segment>): set<Segment> { net + (set seg | seg in c.segmentsOut) }

  ghost predicate AllOnWay(c: Connection, net: set<Segment>) { OnItsWay(c.sender, Wire(c, net)) }

  lemma QueueingKeeps(c: Connection, t: S.Sender, net: set<Segment>)
    requires AllOnWay(c, net) && Queues(c.sender, t)
    ensures AllOnWay(c.(sender := t), net)
  {
    assert Wire(c.(sender := t), net) == Wire(c, net);
  }

  lemma ReachesMore(seg: Segment, net: set<Segment>, more: set<Segment>)
    requires Reaches(seg, net) && net <= more
    ensures Reaches(seg, more)
  {
    var w :| w in net && SamePart(w, seg);
    assert w in more;
  }

  lemma StampedReaches(r: R.Receiver, queued: seq<Segment>, seg: Segment, net: set<Segment>)
    requires seg in queued && forall w :: w in StampAll(r, queued) ==> w in net
    ensures Reaches(seg, net)
  {
    var i :| 0 <= i < |queued| && queued[i] == seg;
    var w := StampAll(r, queued)[i];
    assert w == Stamp(r, queued[i]) && w in StampAll(r, queued);
    assert SamePart(w, seg);
  }

  lemma FlushKeepsWay(c: Connection, net: set<Segment>)
    requires AllOnWay(c, net)
    ensures AllOnWay(Flush(c), net)
  {
    var t := Flush(c);
    assert Wire(c, net) <= Wire(t, net);
    forall seg | seg in t.sender.outstanding
      ensures Reaches(seg, Wire(t, net))
    {
      if seg in c.sender.segmentsOut {
        StampedReaches(c.receiver, c.sender.segmentsOut, seg, Wire(t, net));
      } else {
        ReachesMore(seg, Wire(c, net), Wire(t, net));
      }
    }
  }

  lemma UncleanKeepsWay(c: Connection, net: set<Segment>)
    requires AllOnWay(c, net) && c.sender.segmentsOut != []
    ensures AllOnWay(UncleanShutdown(c), net)
  {
    var t, first := UncleanShutdown(c), c.sender.segmentsOut[0];
    var w := t.segmentsOut[|c.segmentsOut|];
    assert w in Wire(t, net) && SamePart(w, first);
    assert Wire(c, net) <= Wire(t, net);
    forall seg | seg in t.sender.outstanding
      ensures seg in t.sender.segmentsOut || Reaches(seg, Wire(t, net))
    {
      if seg !in c.sender.segmentsOut {
        ReachesMore(seg, Wire(c, net), Wire(t, net));
      }
    }
  }

  lemma FillKeepsWay(c: Connection, net: set<Segment>)
    requires AllOnWay(c, net) && c.sender.stream.Valid()
    ensures AllOnWay(FillAndFlush(c), net)
  {
    FillWindowQueues(c.sender);
    QueueingKeeps(c, S.FillWindow(c.sender), net);
    FlushKeepsWay(c.(sender := S.FillWindow(c.sender)), net);
  }

  lemma ExchangeKeepsWay(c: Connection, seg: Segment, net: set<Segment>)
    requires AllOnWay(c, net) && R.Representable(c.receiver) && c.sender.stream.Valid()
    ensures AllOnWay(Exchange(c, seg), net)
  {
    var d := Deliver(c, seg);
    AckReceivedQueues(c.sender, seg.header.ackno, seg.header.win);
    QueueingKeeps(c, d.sender, net);
    assert Wire(d, net) == Wire(c, net);
    QueueingKeeps(d, QueueEmpty(d).sender, net);
    if seg.header.rst {
      UncleanKeepsWay(QueueEmpty(d), net);
    } else {
      FlushKeepsWay(Answer(d, seg), net);
    }
  }

  lemma SameWay(c: Connection, d: Connection, net: set<Segment>)
    requires AllOnWay(c, net) && d.segmentsOut == c.segmentsOut && Queues(c.sender, d.sender)
    ensures AllOnWay(d, net)
  {
    assert Wire(d, net) == Wire(c, net);
  }

  lemma ArrivalKeepsWay(c: Connection, seg: Segment, net: set<Segment>)
    requires Ready(c) && AllOnWay(c, net)
    ensures AllOnWay(SegmentReceived(c, seg), net)
  {
    var d := c.(sinceLast := 0);
    SameWay(c, d, net);
    if Exchanges(c, seg) {
      ArrivalExchanges(c, seg);
      ExchangeKeepsWay(d, seg, net);
    } else if c.active && Listening(c) && seg.header.syn {
      var f := d.(receiver := R.SegmentReceived(d.receiver, seg));
      SameWay(d, f, net);
      FillKeepsWay(f, net);
    } else {
      SameWay(c, SegmentReceived(c, seg), net);
    }
  }

  lemma TickKeepsWay(c: Connection, ms: nat, net: set<Segment>)
    requires Ready(c) && AllOnWay(c, net)
    ensures AllOnWay(Tick(c, ms), net)
  {
    if c.active {
      var d := Elapse(c, ms);
      SameWay(c, d, net);
      if d.sender.retransmissions > MAX_RETX_ATTEMPTS {
        UncleanKeepsWay(d, net);
      }
      FlushKeepsWay(GiveUp(d), net);
    }
  }

  lemma StepKeepsWay(c: Connection, e: Event, net: set<Segment>)
    requires Ready(c) && AllOnWay(c, net)
    ensures AllOnWay(Step(c, e), net)
  {
    match e
    case Arrives(seg) => ArrivalKeepsWay(c, seg, net);
    case Ticks(ms) => TickKeepsWay(c, ms, net);
    case Writes(data) =>
      var d := c.(sender := c.sender.(stream := c.sender.stream.Write(data)));
      SameWay(c, d, net);
      FillKeepsWay(d, net);
    case Ends =>
      var d := c.(sender := c.sender.(stream := c.sender.stream.EndInput()));
      SameWay(c, d, net);
      FillKeepsWay(d, net);
    case Connects => FillKeepsWay(c, net);
    case Reads(len) => SameWay(c, Read(c, len), net);
  }

  ghost predicate BothOnWay(sys: System) {
    OnItsWay(sys.a.sender, sys.ab) && OnItsWay(sys.b.sender, sys.ba)
  }

  lemma ActKeepsWay(sys: System, e: Event, next: System)
    requires BothOnWay(sys) && ActsAtA(sys, e, next) && sys.a.segmentsOut == []
    ensures BothOnWay(next)
  {
    assert Wire(sys.a, sys.ab) == sys.ab;
    StepKeepsWay(sys.a, e, sys.ab);
  }

  lemma StepOnWay(states: seq<System>, acts: seq<Action>, i: nat)
    requires IsRun(states, acts) && i < |acts| && BothOnWay(states[i])
    ensures BothOnWay(states[i + 1])
  {
    RunKeepsHonest(states, acts, i);
    match acts[i]
    case AtA(e) => ActKeepsWay(states[i], e, states[i + 1]);
    case AtB(e) => ActKeepsWay(Swap(states[i]), e, Swap(states[i + 1]));
  }

  /** In every state of every run, each segment in flight is on the wire, or in the sender's queue to be sent. */
  lemma {:induction false} InFlightIsOnWire(states: seq<System>, acts: seq<Action>, i: nat)
    requires IsRun(states, acts) && i < |states|
    ensures BothOnWay(states[i])
  {
    if i > 0 {
      InFlightIsOnWire(states, acts, i - 1);
      StepOnWay(states, acts, i - 1);
    }
  }

  // ---- A round trip ----

  lemma AckedReaches(s: S.Sender, ackno: u32, x: nat)
    requires I.Inv(s) && x <= s.nextSeqno && ackno == Wrap(x, s.isn)
    ensures Acked(s, ackno) >= x
  {
    UnwrapInvertsWrap(x, s.isn, s.rcvBase);
  }

  lemma TellIsTaken(c: Connection, seg: Segment, peer: R.Receiver)
    requires Inv(c) && Ready(c) && Exchanges(c, seg) && Tells(seg, peer)
    requires Started(peer) && R.Follows(peer, c.sender.isn, c.sender.stream.written)
    requires peer.rcvBase <= c.sender.nextSeqno
    ensures Step(c, Arrives(seg)).sender.rcvBase >= peer.rcvBase
  {
    BaseBound(peer, c.sender.isn, c.sender.stream.written);
    AckedReaches(c.sender, seg.header.ackno, peer.rcvBase);
    StepMoves(c, Arrives(seg));
  }

  /** An answer of b's that tells what b has now, once it reaches a, counts all of it as acknowledged there. */
  lemma AnswerIsTaken(states: seq<System>, acts: seq<Action>, i: nat, answer: Segment)
    requires IsRun(states, acts) && i < |acts| && acts[i] == AtA(Arrives(answer))
    requires Exchanges(states[i].a, answer) && Tells(answer, states[i].b.receiver)
    requires states[i].b.receiver.rcvBase <= states[i].a.sender.nextSeqno
    ensures states[i + 1].a.sender.rcvBase >= states[i].b.receiver.rcvBase
  {
    RunKeepsInv(states, acts, i);
    RunKeepsHonest(states, acts, i);
    AlwaysReady(states, acts, i);
    TellIsTaken(states[i].a, answer, states[i].b.receiver);
  }

  /** The segment is a part of a's stream that b takes, with no gap before it and all of it inside b's window. */
  ghost predicate Fits(sys: System, seg: Segment, start: nat) {
    && Exchanges(sys.b, seg) && !seg.header.rst && seg.Length() > 0
    && SliceAt(seg, sys.a.sender.isn, sys.a.sender.stream.written, start) && R.Taken(sys.b.receiver, seg)
    && PayloadAt(seg, start) <= A.Cur(sys.b.receiver.asm)
    && PayloadAt(seg, start) + |seg.payload| <= A.MaxIdx(sys.b.receiver.asm)
  }

  lemma ArrivalAdvances(states: seq<System>, acts: seq<Action>, i: nat, seg: Segment, start: nat)
    requires IsRun(states, acts) && i < |acts| && acts[i] == AtB(Arrives(seg)) && Fits(states[i], seg, start)
    ensures states[i + 1].b.receiver.rcvBase > PayloadAt(seg, start) + |seg.payload|
    ensures states[i + 1].b.receiver.syn && OnWire(states[i + 1].ba, states[i + 1].b.receiver)
  {
    var sys := states[i];
    RunKeepsInv(states, acts, i);
    AlwaysReady(states, acts, i);
    R.InOrderAdvances(sys.b.receiver, sys.a.sender.isn, sys.a.sender.stream.written, seg, start);
    ArrivalAtReceiver(sys.b, seg);
    ArrivalIsAcknowledged(states, acts, i, seg);
  }

  /**
   * Progress of one round trip, in any two-party run: a part of a's stream that fits reaches b, and then the answer
   * that b has put on the wire reaches a. a counts every byte up to the end of that part as acknowledged.
   */
  lemma RoundTripAdvances(states: seq<System>, acts: seq<Action>, i: nat, seg: Segment, start: nat, answer: Segment)
    requires IsRun(states, acts) && i + 1 < |acts| && acts[i] == AtB(Arrives(seg)) && Fits(states[i], seg, start)
    requires acts[i + 1] == AtA(Arrives(answer)) && Exchanges(states[i + 1].a, answer)
    requires Tells(answer, states[i + 1].b.receiver)
    requires states[i + 1].b.receiver.rcvBase <= states[i + 1].a.sender.nextSeqno
    ensures OnWire(states[i + 1].ba, states[i + 1].b.receiver)
    ensures states[i + 2].a.sender.rcvBase > PayloadAt(seg, start) + |seg.payload|
  {
    ArrivalAdvances(states, acts, i, seg, start);
    AnswerIsTaken(states, acts, i + 1, answer);
  }
}
