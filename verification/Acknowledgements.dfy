/** What acknowledgements say about the other end, in runs of two connections (tcp_receiver.cc, tcp_connection.cc). */
module Acknowledgements {
  import opened Numbers
  import opened WrappingIntegers
  import opened TcpSegment
  import opened ByteStream
  import opened ConnectionModel
  import opened ConnectionInvariant
  import opened EndToEnd
  import A = Assembly
  import R = ReceiverModel
  import S = SenderModel
  import I = SenderInvariant
  import P = SenderProperties
  import F = StreamEnd

  // ---- The acknowledgement only moves forward ----

  /** Neither the acknowledgement, nor what is assembled, nor the right edge of the window has moved back. */
  ghost predicate Advanced(r: R.Receiver, q: R.Receiver) {
    && r.rcvBase <= q.rcvBase && A.Cur(r.asm) <= A.Cur(q.asm) && (r.fin ==> q.fin)
    && q.asm.capacity == r.asm.capacity
    && (r.syn ==> q.syn && q.isn == r.isn && R.RightEdge(r) <= R.RightEdge(q))
  }

  /** Before SYN there is nothing to acknowledge. */
  ghost predicate Started(r: R.Receiver) { R.Valid(r) && (!r.syn ==> r.rcvBase == 0) }

  lemma SegmentAdvances(r: R.Receiver, seg: Segment)
    requires Started(r) && R.Representable(r)
    ensures Started(R.SegmentReceived(r, seg)) && Advanced(r, R.SegmentReceived(r, seg))
  {
    R.ReceiveKeepsValid(r, seg);
    R.ReceiveKeepsError(r, seg);
    if R.Taken(r, seg) {
      A.PushKeepsValid(r.asm, seg.payload, R.StreamIndex(R.Noted(r, seg), seg), seg.header.fin);
    }
    if r.syn {
      R.AckNeverDecreases(r, seg, 0);
    }
  }

  lemma StepAdvances(c: Connection, e: Event)
    requires Ready(c) && Started(c.receiver) && R.Valid(Step(c, e).receiver)
    ensures Started(Step(c, e).receiver) && Advanced(c.receiver, Step(c, e).receiver)
  {
    ReceiverAfter(c, e);
    if e.Arrives? {
      SegmentAdvances(c.receiver, e.seg);
    }
  }

  // ---- What segments claim ----

  /** A segment as the sender makes it, before the connection stamps it. */
  predicate IsBare(seg: Segment) { !seg.header.ack && seg.header.ackno == 0 && seg.header.win == 0 }

  ghost predicate Bare(segs: seq<Segment>) { forall seg :: seg in segs ==> IsBare(seg) }

  ghost predicate BareSender(s: S.Sender) { Bare(s.outstanding) && Bare(s.segmentsOut) }

  lemma EmitBare(s: S.Sender, seg: Segment)
    requires BareSender(s) && IsBare(seg)
    ensures BareSender(S.Emit(s, seg))
  {
  }

  lemma {:induction false} SendAllBare(s: S.Sender, edge: u32)
    requires BareSender(s) && s.stream.Valid()
    ensures BareSender(S.SendAll(s, edge))
    decreases s.stream.BufferSize()
  {
    if S.CanSend(s, edge) {
      var n := Min(S.Free(s, edge), S.MAX_PAYLOAD_SIZE);
      SendDataBare(s, n);
      SendAllBare(S.SendData(s, n), edge);
    }
  }

  lemma SendDataBare(s: S.Sender, n: nat)
    requires BareSender(s) && s.stream.Valid()
    ensures BareSender(S.SendData(s, n))
  {
    var payload, rest := s.stream.Peek(n), s.stream.Pop(n);
    var fin := rest.Eof() && |payload| < s.window;
    EmitBare(s.(stream := rest, finSent := s.finSent || fin), DataSegment(payload, fin));
  }

  lemma FillWindowBare(s: S.Sender)
    requires BareSender(s) && s.stream.Valid()
    ensures BareSender(S.FillWindow(s))
  {
    if !s.synSent {
      EmitBare(s.(synSent := true), SYN_SEGMENT);
    } else if !S.WaitingForSyn(s) && !s.finSent {
      var w := S.Widened(s);
      if w.stream.Eof() && S.Edge(w) > w.nextSeqno {
        EmitBare(w.(finSent := true), DataSegment([], true));
      }
      SendAllBare(S.FinAlone(w, S.Edge(w)), S.Edge(w));
    }
  }

  lemma {:induction false} DropAckedBare(s: S.Sender, ack: u64)
    requires BareSender(s)
    ensures BareSender(S.DropAcked(s, ack))
    decreases |s.outstanding|
  {
    if s.outstanding != [] && ack >= S.EndOfFront(s) {
      DropAckedBare(S.DropFront(s), ack);
    }
  }

  lemma AckReceivedBare(s: S.Sender, ackno: u32, win: u16)
    requires BareSender(s) && s.stream.Valid()
    ensures BareSender(S.AckReceived(s, ackno, win))
  {
    var ack := Unwrap(ackno, s.isn, s.rcvBase);
    if s.rcvBase < ack <= s.nextSeqno {
      var w := s.(window := win, backOff := win != 0);
      DropAckedBare(w.(rcvBase := ack % TWO_32), ack);
      FillWindowBare(S.Advance(w, ack));
    }
  }

  lemma TickBare(s: S.Sender, ms: nat)
    requires BareSender(s) && (s.timerRunning ==> s.outstanding != [])
    ensures BareSender(S.Tick(s, ms))
  {
  }

  lemma SendEmptyBare(s: S.Sender)
    requires BareSender(s)
    ensures BareSender(S.SendEmpty(s))
  {
  }

  /** The segment acknowledges and advertises what r does, or is bare. */
  predicate StampedBy(seg: Segment, r: R.Receiver) {
    if seg.header.ack
    then r.syn && seg.header.ackno == Wrap(r.rcvBase % TWO_64, r.isn) && seg.header.win == R.WindowSize(r) % TWO_16
    else IsBare(seg)
  }

  ghost predicate AllStamped(c: Connection) {
    BareSender(c.sender) && forall seg :: seg in c.segmentsOut ==> StampedBy(seg, c.receiver)
  }

  lemma FlushStamps(c: Connection)
    requires AllStamped(c)
    ensures AllStamped(Flush(c))
  {
    var queued := c.sender.segmentsOut;
    var out := StampAll(c.receiver, queued);
    forall seg | seg in out
      ensures StampedBy(seg, c.receiver)
    {
      var i :| 0 <= i < |out| && out[i] == seg;
      assert queued[i] in queued;
    }
  }

  lemma UncleanStamps(c: Connection)
    requires AllStamped(c) && c.sender.segmentsOut != []
    ensures AllStamped(UncleanShutdown(c))
  {
    assert c.sender.segmentsOut[0] in c.sender.segmentsOut;
  }

  lemma FillStamps(c: Connection)
    requires AllStamped(c) && c.sender.stream.Valid()
    ensures AllStamped(FillAndFlush(c))
  {
    FillWindowBare(c.sender);
    FlushStamps(c.(sender := S.FillWindow(c.sender)));
  }

  lemma ExchangeStamps(c: Connection, seg: Segment)
    requires BareSender(c.sender) && c.segmentsOut == []
    requires R.Representable(c.receiver) && c.sender.stream.Valid()
    ensures AllStamped(Exchange(c, seg))
  {
    var d := Deliver(c, seg);
    AckReceivedBare(c.sender, seg.header.ackno, seg.header.win);
    SendEmptyBare(d.sender);
    if seg.header.rst {
      UncleanStamps(QueueEmpty(d));
    } else {
      FlushStamps(Answer(d, seg));
    }
  }

  lemma ArrivalStamps(c: Connection, seg: Segment)
    requires Ready(c) && BareSender(c.sender) && c.segmentsOut == []
    ensures AllStamped(SegmentReceived(c, seg))
  {
    var d := c.(sinceLast := 0);
    if Listening(c) {
      FillStamps(d.(receiver := R.SegmentReceived(d.receiver, seg)));
    } else {
      ExchangeStamps(d, seg);
      SendEmptyBare(d.sender);
    }
  }

  lemma TickStamps(c: Connection, ms: nat)
    requires Ready(c) && BareSender(c.sender) && c.segmentsOut == []
    ensures AllStamped(Tick(c, ms))
  {
    if c.active {
      var d := Elapse(c, ms);
      TickBare(c.sender, ms);
      if d.sender.retransmissions > MAX_RETX_ATTEMPTS {
        UncleanStamps(d);
      }
      FlushStamps(GiveUp(d));
    }
  }

  /** Whatever a call queues acknowledges exactly what the receiver acknowledges after the call. */
  lemma StepStamps(c: Connection, e: Event)
    requires Ready(c) && BareSender(c.sender) && c.segmentsOut == []
    ensures AllStamped(Step(c, e))
  {
    match e
    case Arrives(seg) => ArrivalStamps(c, seg);
    case Writes(data) => FillStamps(c.(sender := c.sender.(stream := c.sender.stream.Write(data))));
    case Ticks(ms) => TickStamps(c, ms);
    case Ends => FillStamps(c.(sender := c.sender.(stream := c.sender.stream.EndInput())));
    case Connects => FillStamps(c);
    case Reads(len) =>
  }

  // ---- Acknowledgements on the wire ----

  /** The segment acknowledges x and offers a window that ends inside the receiver's. */
  ghost predicate Acknowledges(seg: Segment, isn: u32, to: R.Receiver, x: nat) {
    x <= to.rcvBase && x < TWO_64 && seg.header.ackno == Wrap(x, isn) && x + seg.header.win <= R.RightEdge(to)
  }

  /** A flagged segment acknowledges and advertises no more than the receiver does now; others are bare. */
  ghost predicate TrueAck(seg: Segment, isn: u32, to: R.Receiver) {
    if seg.header.ack then to.syn && exists x: nat :: Acknowledges(seg, isn, to, x) else IsBare(seg)
  }

  /** Segments towards the sender s acknowledge only what the receiver to does. */
  ghost predicate TrueAcks(net: set<Segment>, s: S.Sender, to: R.Receiver) {
    forall seg :: seg in net ==> TrueAck(seg, s.isn, to)
  }

  ghost predicate Honest(c: Connection) { c.segmentsOut == [] && BareSender(c.sender) && Started(c.receiver) }

  ghost predicate HonestSystem(sys: System) {
    && Honest(sys.a) && Honest(sys.b)
    && TrueAcks(sys.ba, sys.a.sender, sys.b.receiver) && TrueAcks(sys.ab, sys.b.sender, sys.a.receiver)
  }

  lemma TrueAckGrows(seg: Segment, isn: u32, r: R.Receiver, q: R.Receiver)
    requires TrueAck(seg, isn, r) && Advanced(r, q)
    ensures TrueAck(seg, isn, q)
  {
    if seg.header.ack {
      var x: nat :| Acknowledges(seg, isn, r, x);
      assert Acknowledges(seg, isn, q, x);
    }
  }

  lemma StampedIsTrue(seg: Segment, isn: u32, r: R.Receiver)
    requires R.Valid(r) && StampedBy(seg, r) && (r.syn ==> r.isn == isn) && r.rcvBase < TWO_64
    ensures TrueAck(seg, isn, r)
  {
    if seg.header.ack {
      R.EdgeIsAcceptanceBound(r);
      CutAtMost(R.WindowSize(r));
      assert Acknowledges(seg, isn, r, r.rcvBase);
    }
  }

  lemma CutAtMost(x: nat)
    ensures x % TWO_16 <= x
  {
  }

  /** A receiver of a short stream has a small base. */
  lemma BaseBound(r: R.Receiver, isn: u32, s: seq<byte>)
    requires Started(r) && R.Follows(r, isn, s)
    ensures r.rcvBase <= |s| + 2
    ensures r.rcvBase == |s| + 2 ==> r.asm.ended && r.fin && A.Output(r.asm) == s
  {
    A.CarriesGivesPrefix(r.asm, s);
  }

  lemma NetKeepsTrue(net: set<Segment>, out: seq<Segment>, s: S.Sender, r: R.Receiver, q: R.Receiver)
    requires TrueAcks(net, s, r) && Advanced(r, q) && R.Valid(q) && q.rcvBase < TWO_64 && (q.syn ==> q.isn == s.isn)
    requires forall seg :: seg in out ==> StampedBy(seg, q)
    ensures TrueAcks(net + (set seg | seg in out), s, q)
  {
    forall seg | seg in net
      ensures TrueAck(seg, s.isn, q)
    {
      TrueAckGrows(seg, s.isn, r, q);
    }
    forall seg | seg in out
      ensures TrueAck(seg, s.isn, q)
    {
      StampedIsTrue(seg, s.isn, q);
    }
  }

  lemma ActKeepsHonest(sys: System, e: Event, next: System)
    requires SystemInv(sys) && SystemInv(next) && HonestSystem(sys) && ActsAtA(sys, e, next)
    ensures HonestSystem(next) && Advanced(sys.a.receiver, next.a.receiver)
  {
    var c := Step(sys.a, e);
    StepKeepsInv(sys.a, e);
    StepStamps(sys.a, e);
    StepAdvances(sys.a, e);
    BaseBound(c.receiver, sys.b.sender.isn, sys.b.sender.stream.written);
    NetKeepsTrue(sys.ab, c.segmentsOut, sys.b.sender, sys.a.receiver, c.receiver);
  }

  lemma StepKeepsHonest(states: seq<System>, acts: seq<Action>, i: nat)
    requires IsRun(states, acts) && i < |acts| && HonestSystem(states[i])
    ensures HonestSystem(states[i + 1])
    ensures Advanced(states[i].a.receiver, states[i + 1].a.receiver)
    ensures Advanced(states[i].b.receiver, states[i + 1].b.receiver)
  {
    RunKeepsInv(states, acts, i);
    RunKeepsInv(states, acts, i + 1);
    match acts[i]
    case AtA(e) => ActKeepsHonest(states[i], e, states[i + 1]);
    case AtB(e) => ActKeepsHonest(Swap(states[i]), e, Swap(states[i + 1]));
  }

  lemma StartsHonest(states: seq<System>, acts: seq<Action>)
    requires IsRun(states, acts)
    ensures HonestSystem(states[0])
  {
  }

  lemma {:induction false} RunKeepsHonest(states: seq<System>, acts: seq<Action>, i: nat)
    requires IsRun(states, acts) && i < |states|
    ensures HonestSystem(states[i])
  {
    if i == 0 {
      StartsHonest(states, acts);
    } else {
      RunKeepsHonest(states, acts, i - 1);
      StepKeepsHonest(states, acts, i - 1);
    }
  }

  /** In every run, at both ends, neither the acknowledgement nor the right edge of the window ever moves back. */
  lemma {:induction false} AckNeverMovesBack(states: seq<System>, acts: seq<Action>, i: nat, j: nat)
    requires IsRun(states, acts) && i <= j < |states|
    ensures Advanced(states[i].a.receiver, states[j].a.receiver)
    ensures Advanced(states[i].b.receiver, states[j].b.receiver)
    decreases j
  {
    if i < j {
      AckNeverMovesBack(states, acts, i, j - 1);
      RunKeepsHonest(states, acts, j - 1);
      StepKeepsHonest(states, acts, j - 1);
    }
  }

  /** The bytes below the acknowledgement are exactly the ones assembled, and they are the peer's. */
  ghost predicate CoversAssembled(from: Stream, to: R.Receiver) {
    to.syn ==>
      && 1 <= to.rcvBase <= |from.written| + 2
      && A.Output(to.asm) == from.written[..Min(to.rcvBase - 1, |from.written|)]
  }

  lemma ExactCovers(from: S.Sender, to: R.Receiver)
    requires Started(to) && A.Carries(to.asm, from.stream.written) && F.EndRight(from, to)
    ensures CoversAssembled(from.stream, to)
  {
    A.CarriesGivesPrefix(to.asm, from.stream.written);
  }

  /** Acknowledgement soundness over runs whose FINs are in order: no byte is acknowledged before it is assembled. */
  lemma AckIsAssembled(states: seq<System>, acts: seq<Action>, i: nat)
    requires IsRun(states, acts) && i < |states| && F.FinsInOrder(states, acts)
    ensures CoversAssembled(states[i].a.sender.stream, states[i].b.receiver)
    ensures CoversAssembled(states[i].b.sender.stream, states[i].a.receiver)
  {
    RunKeepsInv(states, acts, i);
    RunKeepsHonest(states, acts, i);
    F.RunKeepsEnd(states, acts, i);
    ExactCovers(states[i].a.sender, states[i].b.receiver);
    ExactCovers(states[i].b.sender, states[i].a.receiver);
  }

  // ---- What the sender takes for acknowledged ----

  /** Where an acknowledgement number moves the sender. */
  function Acked(s: S.Sender, ackno: u32): int {
    var y := Unwrap(ackno, s.isn, s.rcvBase);
    if s.rcvBase < y <= s.nextSeqno then y else s.rcvBase
  }

  lemma AckReceivedMoves(s: S.Sender, ackno: u32, win: u16)
    requires I.Inv(s)
    ensures S.AckReceived(s, ackno, win).rcvBase == Acked(s, ackno)
  {
    var ack := Unwrap(ackno, s.isn, s.rcvBase);
    if s.rcvBase < ack <= s.nextSeqno {
      var w := s.(window := win, backOff := win != 0);
      I.AdvanceKeepsInv(w, ack);
      P.FillWindowOnlySends(S.Advance(w, ack));
    }
  }

  lemma FlushKeepsBase(c: Connection)
    ensures Flush(c).sender.rcvBase == c.sender.rcvBase
  {
  }

  lemma FillKeepsBase(c: Connection)
    requires c.sender.stream.Valid()
    ensures FillAndFlush(c).sender.rcvBase == c.sender.rcvBase
  {
    P.FillWindowOnlySends(c.sender);
    FlushKeepsBase(c.(sender := S.FillWindow(c.sender)));
  }

  lemma ExchangeMoves(c: Connection, seg: Segment)
    requires R.Representable(c.receiver) && I.Inv(c.sender)
    ensures Exchange(c, seg).sender.rcvBase == Acked(c.sender, seg.header.ackno)
  {
    AckReceivedMoves(c.sender, seg.header.ackno, seg.header.win);
    FlushKeepsBase(Answer(Deliver(c, seg), seg));
  }

  /** Only a segment that reaches the exchange moves the sender's acknowledgement. */
  lemma StepMoves(c: Connection, e: Event)
    requires Inv(c) && Ready(c)
    ensures Step(c, e).sender.rcvBase
            == if e.Arrives? && Exchanges(c, e.seg) then Acked(c.sender, e.seg.header.ackno) else c.sender.rcvBase
  {
    match e
    case Arrives(seg) =>
      var d := c.(sinceLast := 0);
      if Exchanges(c, seg) {
        ExchangeMoves(d, seg);
      } else if c.active && Listening(c) {
        FillKeepsBase(d.(receiver := R.SegmentReceived(d.receiver, seg)));
      }
    case Writes(data) => FillKeepsBase(c.(sender := c.sender.(stream := c.sender.stream.Write(data))));
    case Ticks(ms) =>
      if c.active {
        FlushKeepsBase(GiveUp(Elapse(c, ms)));
      }
    case Ends => FillKeepsBase(c.(sender := c.sender.(stream := c.sender.stream.EndInput())));
    case Connects => FillKeepsBase(c);
    case Reads(len) =>
  }

  /** What a sender takes for acknowledged, the other end has acknowledged. */
  ghost predicate AckBound(sys: System) {
    sys.a.sender.rcvBase <= sys.b.receiver.rcvBase && sys.b.sender.rcvBase <= sys.a.receiver.rcvBase
  }

  /** A segment without the ACK flag reaches the exchange, and its number is read as one the peer has not reached. */
  ghost predicate FalseAckAt(c: Connection, e: Event, peer: R.Receiver) {
    && e.Arrives? && Exchanges(c, e.seg) && !e.seg.header.ack
    && peer.rcvBase < Unwrap(0, c.sender.isn, c.sender.rcvBase) <= c.sender.nextSeqno
  }

  ghost predicate FalseAck(sys: System, act: Action) {
    match act
    case AtA(e) => FalseAckAt(sys.a, e, sys.b.receiver)
    case AtB(e) => FalseAckAt(sys.b, e, sys.a.receiver)
  }

  /** A flagged acknowledgement is read as a number that the peer has reached. */
  lemma FlaggedIsRead(s: S.Sender, seg: Segment, to: R.Receiver)
    requires I.Inv(s) && TrueAck(seg, s.isn, to) && seg.header.ack && to.rcvBase <= |s.stream.written| + 2
    ensures var y := Unwrap(seg.header.ackno, s.isn, s.rcvBase);
            y <= to.rcvBase && y + seg.header.win <= R.RightEdge(to)
  {
    var x: nat :| Acknowledges(seg, s.isn, to, x);
    UnwrapInvertsWrap(x, s.isn, s.rcvBase);
  }

  lemma ActKeepsBoundIff(sys: System, e: Event, next: System)
    requires SystemInv(sys) && HonestSystem(sys) && AckBound(sys) && ActsAtA(sys, e, next)
    requires Advanced(sys.a.receiver, next.a.receiver)
    ensures AckBound(next) <==> !FalseAckAt(sys.a, e, sys.b.receiver)
  {
    StepMoves(sys.a, e);
    BaseBound(sys.b.receiver, sys.a.sender.isn, sys.a.sender.stream.written);
    if e.Arrives? && e.seg.header.ack {
      FlaggedIsRead(sys.a.sender, e.seg, sys.b.receiver);
    }
  }

  lemma StepKeepsBoundIff(states: seq<System>, acts: seq<Action>, i: nat)
    requires IsRun(states, acts) && i < |acts| && AckBound(states[i])
    ensures AckBound(states[i + 1]) <==> !FalseAck(states[i], acts[i])
  {
    RunKeepsInv(states, acts, i);
    RunKeepsHonest(states, acts, i);
    StepKeepsHonest(states, acts, i);
    match acts[i]
    case AtA(e) => ActKeepsBoundIff(states[i], e, states[i + 1]);
    case AtB(e) => ActKeepsBoundIff(Swap(states[i]), e, Swap(states[i + 1]));
  }

  ghost predicate NoFalseAck(states: seq<System>, acts: seq<Action>)
    requires |states| == |acts| + 1
  {
    forall k {:trigger acts[k]} :: 0 <= k < |acts| ==> !FalseAck(states[k], acts[k])
  }

  lemma {:induction false} RunKeepsBound(states: seq<System>, acts: seq<Action>, i: nat)
    requires IsRun(states, acts) && i < |states| && NoFalseAck(states, acts)
    ensures AckBound(states[i])
  {
    if i > 0 {
      RunKeepsBound(states, acts, i - 1);
      StepKeepsBoundIff(states, acts, i - 1);
    }
  }

  /**
   * In every state of a run both senders have taken for acknowledged only what the other end acknowledges, if
   * and only if no segment without the ACK flag was read as acknowledging more than that. (What the other end
   * acknowledges may be more than it has received; see Received.dfy.)
   */
  lemma AcknowledgedByPeerIff(states: seq<System>, acts: seq<Action>)
    requires IsRun(states, acts)
    ensures (forall i :: 0 <= i < |states| ==> AckBound(states[i])) <==> NoFalseAck(states, acts)
  {
    if forall i :: 0 <= i < |states| ==> AckBound(states[i]) {
      forall k | 0 <= k < |acts|
        ensures !FalseAck(states[k], acts[k])
      {
        assert AckBound(states[k]) && AckBound(states[k + 1]);
        StepKeepsBoundIff(states, acts, k);
      }
    }
    if NoFalseAck(states, acts) {
      forall i | 0 <= i < |states|
        ensures AckBound(states[i])
      {
        RunKeepsBound(states, acts, i);
      }
    }
  }

  /** In such a run, a side that has closed without an error has had all it wrote delivered, and its end seen. */
  ghost predicate CloseIsDelivered(c: Connection, peer: R.Receiver) {
    !c.active && !c.receiver.asm.error ==>
      peer.asm.ended && peer.fin && A.Output(peer.asm) == c.sender.stream.written
  }

  lemma BoundDelivers(c: Connection, peer: R.Receiver)
    requires Inv(c) && Started(peer) && R.Follows(peer, c.sender.isn, c.sender.stream.written)
    requires c.sender.rcvBase <= peer.rcvBase
    ensures CloseIsDelivered(c, peer)
  {
    if !c.active && !c.receiver.asm.error {
      P.AllAcknowledged(c.sender);
      BaseBound(peer, c.sender.isn, c.sender.stream.written);
    }
  }

  lemma CleanCloseMeansDelivered(states: seq<System>, acts: seq<Action>, i: nat)
    requires IsRun(states, acts) && i < |states| && NoFalseAck(states, acts)
    ensures CloseIsDelivered(states[i].a, states[i].b.receiver)
    ensures CloseIsDelivered(states[i].b, states[i].a.receiver)
  {
    RunKeepsInv(states, acts, i);
    RunKeepsHonest(states, acts, i);
    RunKeepsBound(states, acts, i);
    BoundDelivers(states[i].a, states[i].b.receiver);
    BoundDelivers(states[i].b, states[i].a.receiver);
  }
}
