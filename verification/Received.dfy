/** Acknowledged means received, in runs of two connections: when that holds, exactly. */
module Received {
  import opened Numbers
  import opened WrappingIntegers
  import opened TcpSegment
  import opened ByteStream
  import opened ConnectionModel
  import opened ConnectionInvariant
  import opened EndToEnd
  import opened Acknowledgements
  import A = Assembly
  import R = ReceiverModel
  import S = SenderModel
  import I = SenderInvariant
  import P = SenderProperties
  import F = StreamEnd

  /** How many numbers of SYN, stream, FIN have arrived without a gap; FIN counts once everything before it is there. */
  function InSequence(from: Stream, to: R.Receiver): nat {
    if !to.syn then 0
    else 1 + A.Cur(to.asm) + if to.fin && from.ended && A.Cur(to.asm) == |from.written| then 1 else 0
  }

  /** The output has been ended while bytes are missing. */
  ghost predicate EndedEarly(from: Stream, to: R.Receiver) {
    to.syn && to.fin && to.asm.ended && A.Cur(to.asm) < |from.written|
  }

  /** Both senders have taken for acknowledged only what has arrived. */
  ghost predicate ReceivedBound(sys: System) {
    && sys.a.sender.rcvBase <= InSequence(sys.a.sender.stream, sys.b.receiver)
    && sys.b.sender.rcvBase <= InSequence(sys.b.sender.stream, sys.a.receiver)
  }

  /**
   * A segment is taken that acknowledges too much: without the ACK flag, its number is read as one that has not
   * arrived; or the receiver ended the stream early, and the segment acknowledges the FIN it counted then.
   */
  ghost predicate BadAckAt(c: Connection, e: Event, peer: R.Receiver) {
    && e.Arrives? && Exchanges(c, e.seg)
    && var y := Unwrap(e.seg.header.ackno, c.sender.isn, c.sender.rcvBase);
       && y <= c.sender.nextSeqno
       && ((!e.seg.header.ack && InSequence(c.sender.stream, peer) < y)
           || (EndedEarly(c.sender.stream, peer) && y == peer.rcvBase))
  }

  ghost predicate BadAck(sys: System, act: Action) {
    match act
    case AtA(e) => BadAckAt(sys.a, e, sys.b.receiver)
    case AtB(e) => BadAckAt(sys.b, e, sys.a.receiver)
  }

  ghost predicate NoBadAck(states: seq<System>, acts: seq<Action>)
    requires |states| == |acts| + 1
  {
    forall k {:trigger acts[k]} :: 0 <= k < |acts| ==> !BadAck(states[k], acts[k])
  }

  /** A receiver acknowledges what has arrived, and one more if it ended the stream early. */
  lemma BaseIsInSequence(from: S.Sender, to: R.Receiver)
    requires Started(to) && F.Marked(from, to) && A.Carries(to.asm, from.stream.written)
    ensures EndedEarly(from.stream, to) ==> to.rcvBase == InSequence(from.stream, to) + 1
    ensures !EndedEarly(from.stream, to) ==> to.rcvBase <= InSequence(from.stream, to)
  {
    A.CarriesGivesPrefix(to.asm, from.stream.written);
  }

  lemma InSequenceGrows(from: Stream, later: Stream, to: R.Receiver, q: R.Receiver)
    requires from.written <= later.written && (from.ended ==> later.ended && later.written == from.written)
    requires Advanced(to, q) && A.Carries(q.asm, later.written)
    ensures InSequence(from, to) <= InSequence(later, q)
  {
    A.CarriesGivesPrefix(q.asm, later.written);
  }

  /** An exchanged segment leaves what the application wrote alone. */
  lemma ExchangeKeepsWritten(c: Connection, seg: Segment)
    requires R.Representable(c.receiver) && Inv(c)
    ensures var t := Exchange(c, seg).sender.stream;
            t.written == c.sender.stream.written && t.ended == c.sender.stream.ended
  {
    P.AckReceivedEvolves(c.sender, seg.header.ackno, seg.header.win);
    FlushKeepsStream(Answer(Deliver(c, seg), seg));
  }

  lemma FlushKeepsStream(c: Connection)
    ensures Flush(c).sender.stream == c.sender.stream
  {
  }

  lemma ArrivalKeepsWritten(c: Connection, seg: Segment)
    requires Ready(c) && Inv(c) && Exchanges(c, seg)
    ensures var t := SegmentReceived(c, seg).sender.stream;
            t.written == c.sender.stream.written && t.ended == c.sender.stream.ended
  {
    var d := c.(sinceLast := 0);
    assert Inv(d);
    ExchangeKeepsWritten(d, seg);
  }

  /** The sender's half of a step: it stays within what has arrived exactly if the acknowledgement is not bad. */
  lemma SenderKeepsReceivedIff(c: Connection, e: Event, peer: R.Receiver)
    requires Inv(c) && Ready(c) && Started(peer) && F.Marked(c.sender, peer)
    requires R.Follows(peer, c.sender.isn, c.sender.stream.written)
    requires e.Arrives? ==> TrueAck(e.seg, c.sender.isn, peer)
    requires P.Evolves(c.sender, Step(c, e).sender)
    requires A.Carries(peer.asm, Step(c, e).sender.stream.written)
    requires c.sender.rcvBase <= InSequence(c.sender.stream, peer)
    ensures Step(c, e).sender.rcvBase <= InSequence(Step(c, e).sender.stream, peer) <==> !BadAckAt(c, e, peer)
  {
    StepMoves(c, e);
    BaseIsInSequence(c.sender, peer);
    if e.Arrives? && Exchanges(c, e.seg) {
      ArrivalKeepsWritten(c, e.seg);
      BaseBound(peer, c.sender.isn, c.sender.stream.written);
      if e.seg.header.ack {
        FlaggedIsRead(c.sender, e.seg, peer);
      }
    } else {
      InSequenceGrows(c.sender.stream, Step(c, e).sender.stream, peer, peer);
    }
  }

  lemma ActKeepsReceivedIff(sys: System, e: Event, next: System)
    requires SystemInv(sys) && SystemInv(next) && HonestSystem(sys) && F.SystemMarked(sys) && ReceivedBound(sys)
    requires ActsAtA(sys, e, next) && Advanced(sys.a.receiver, next.a.receiver)
    ensures ReceivedBound(next) <==> !BadAckAt(sys.a, e, sys.b.receiver)
  {
    StepKeepsInv(sys.a, e);
    SenderKeepsReceivedIff(sys.a, e, sys.b.receiver);
    InSequenceGrows(sys.b.sender.stream, sys.b.sender.stream, sys.a.receiver, next.a.receiver);
  }

  lemma StepKeepsReceivedIff(states: seq<System>, acts: seq<Action>, i: nat)
    requires IsRun(states, acts) && i < |acts| && ReceivedBound(states[i])
    ensures ReceivedBound(states[i + 1]) <==> !BadAck(states[i], acts[i])
  {
    RunKeepsInv(states, acts, i);
    RunKeepsInv(states, acts, i + 1);
    RunKeepsHonest(states, acts, i);
    StepKeepsHonest(states, acts, i);
    F.RunKeepsMark(states, acts, i);
    match acts[i]
    case AtA(e) => ActKeepsReceivedIff(states[i], e, states[i + 1]);
    case AtB(e) => ActKeepsReceivedIff(Swap(states[i]), e, Swap(states[i + 1]));
  }

  lemma {:induction false} RunKeepsReceived(states: seq<System>, acts: seq<Action>, i: nat)
    requires IsRun(states, acts) && i < |states| && NoBadAck(states, acts)
    ensures ReceivedBound(states[i])
  {
    if i > 0 {
      RunKeepsReceived(states, acts, i - 1);
      StepKeepsReceivedIff(states, acts, i - 1);
    }
  }

  ghost predicate AlwaysReceived(states: seq<System>) {
    forall i :: 0 <= i < |states| ==> ReceivedBound(states[i])
  }

  /**
   * In every state of a run both senders take for acknowledged only what has arrived at the other end, if and
   * only if no segment was taken that acknowledges too much.
   */
  lemma AcknowledgedIsReceivedIff(states: seq<System>, acts: seq<Action>)
    requires IsRun(states, acts)
    ensures AlwaysReceived(states) <==> NoBadAck(states, acts)
  {
    if AlwaysReceived(states) {
      forall k | 0 <= k < |acts|
        ensures !BadAck(states[k], acts[k])
      {
        assert ReceivedBound(states[k]) && ReceivedBound(states[k + 1]);
        StepKeepsReceivedIff(states, acts, k);
      }
    }
    if NoBadAck(states, acts) {
      forall i | 0 <= i < |states|
        ensures ReceivedBound(states[i])
      {
        RunKeepsReceived(states, acts, i);
      }
    }
  }

  // ---- Runs whose FINs are in order ----

  /** With an exact end, the receiver acknowledges exactly what has arrived. */
  lemma ExactBase(from: S.Sender, to: R.Receiver)
    requires Started(to) && F.EndRight(from, to)
    ensures to.rcvBase == InSequence(from.stream, to) && !EndedEarly(from.stream, to)
  {
  }

  lemma BadIsFalse(states: seq<System>, acts: seq<Action>, k: nat)
    requires IsRun(states, acts) && k < |acts| && F.FinsInOrder(states, acts)
    ensures BadAck(states[k], acts[k]) <==> FalseAck(states[k], acts[k])
  {
    var sys := states[k];
    F.RunKeepsEnd(states, acts, k);
    RunKeepsHonest(states, acts, k);
    ExactBase(sys.a.sender, sys.b.receiver);
    ExactBase(sys.b.sender, sys.a.receiver);
    match acts[k] {
      case AtA(e) => assert e.Arrives? ==> TrueAck(e.seg, sys.a.sender.isn, sys.b.receiver);
      case AtB(e) => assert e.Arrives? ==> TrueAck(e.seg, sys.b.sender.isn, sys.a.receiver);
    }
  }

  /**
   * In a run whose FINs are in order that is so if and only if no segment without the ACK flag was read as
   * acknowledging something that had not arrived.
   */
  lemma ReceivedInOrderIff(states: seq<System>, acts: seq<Action>)
    requires IsRun(states, acts) && F.FinsInOrder(states, acts)
    ensures AlwaysReceived(states) <==> NoFalseAck(states, acts)
  {
    AcknowledgedIsReceivedIff(states, acts);
    forall k | 0 <= k < |acts|
      ensures BadAck(states[k], acts[k]) <==> FalseAck(states[k], acts[k])
    {
      BadIsFalse(states, acts, k);
    }
  }

  /** A side that has closed without an error has received all that the peer ever wrote. */
  ghost predicate CloseHasReceived(c: Connection, peer: Stream) {
    !c.active && !c.receiver.asm.error ==> peer.ended && A.Output(c.receiver.asm) == peer.written
  }

  /** The other half of a clean close, in runs whose FINs are in order. */
  lemma CleanCloseHasReceived(states: seq<System>, acts: seq<Action>, i: nat)
    requires IsRun(states, acts) && i < |states| && F.FinsInOrder(states, acts)
    ensures CloseHasReceived(states[i].a, states[i].b.sender.stream)
    ensures CloseHasReceived(states[i].b, states[i].a.sender.stream)
  {
    RunKeepsInv(states, acts, i);
    F.OrderGivesComplete(states, acts, i);
  }

  // ---- Room for everything on the wire ----

  /** The 64-bit sums made for a segment are exact. */
  predicate RoomFor(c: Connection, seg: Segment) {
    A.Cur(c.receiver.asm) + c.receiver.asm.capacity + |seg.payload| < TWO_64
  }

  lemma RoomAt(c: Connection, seg: Segment, from: S.Sender)
    requires I.Inv(from) && R.Follows(c.receiver, from.isn, from.stream.written) && I.Sent(seg, from.isn, from.stream)
    requires c.receiver.asm.capacity < TWO_63
    ensures RoomFor(c, seg)
  {
    A.CarriesGivesPrefix(c.receiver.asm, from.stream.written);
  }

  /** With receive capacities below 2^63, each endpoint has room for any segment that may reach it. */
  lemma AlwaysRoom(states: seq<System>, acts: seq<Action>, i: nat, seg: Segment)
    requires IsRun(states, acts) && i < |states|
    requires states[0].a.receiver.asm.capacity < TWO_63 && states[0].b.receiver.asm.capacity < TWO_63
    ensures seg in states[i].ba ==> RoomFor(states[i].a, seg)
    ensures seg in states[i].ab ==> RoomFor(states[i].b, seg)
  {
    RunKeepsInv(states, acts, i);
    AckNeverMovesBack(states, acts, 0, i);
    if seg in states[i].ba {
      RoomAt(states[i].a, seg, states[i].b.sender);
    }
    if seg in states[i].ab {
      RoomAt(states[i].b, seg, states[i].a.sender);
    }
  }
}
