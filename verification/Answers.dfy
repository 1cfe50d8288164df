/** What a connection must do with a segment that arrives (tcp_connection.cc): answer it, or stop. */
module Answers {
  import opened WrappingIntegers
  import opened TcpSegment
  import opened ConnectionModel
  import opened ConnectionInvariant
  import opened EndToEnd
  import opened Acknowledgements
  import R = ReceiverModel
  import S = SenderModel
  import P = SenderProperties

  /** The segment acknowledges what r has, and advertises r's window. */
  predicate Tells(seg: Segment, r: R.Receiver) { seg.header.ack && StampedBy(seg, r) }

  lemma StampTells(r: R.Receiver, seg: Segment)
    requires r.syn
    ensures Tells(Stamp(r, seg), r)
  {
  }

  /** Everything that t has queued beyond out tells what r has. */
  ghost predicate AllTell(out: seq<Segment>, t: Connection, r: R.Receiver) {
    out <= t.segmentsOut && forall i :: |out| <= i < |t.segmentsOut| ==> Tells(t.segmentsOut[i], r)
  }

  lemma FlushTells(c: Connection)
    requires c.receiver.syn
    ensures AllTell(c.segmentsOut, Flush(c), c.receiver)
    ensures |Flush(c).segmentsOut| == |c.segmentsOut| + |c.sender.segmentsOut|
  {
    var n, t, queued := |c.segmentsOut|, Flush(c), c.sender.segmentsOut;
    forall i | n <= i < |t.segmentsOut|
      ensures Tells(t.segmentsOut[i], c.receiver)
    {
      assert t.segmentsOut[i] == StampAll(c.receiver, queued)[i - n] == Stamp(c.receiver, queued[i - n]);
      StampTells(c.receiver, queued[i - n]);
    }
  }

  lemma FlushReceiver(c: Connection)
    ensures Flush(c).receiver == c.receiver
  {
  }

  lemma ExchangeAnswers(c: Connection, seg: Segment)
    requires R.Representable(c.receiver) && c.sender.stream.Valid()
    requires !seg.header.rst && seg.Length() > 0 && R.SegmentReceived(c.receiver, seg).syn
    ensures var t := Exchange(c, seg);
            t.receiver == R.SegmentReceived(c.receiver, seg)
            && |c.segmentsOut| < |t.segmentsOut| && AllTell(c.segmentsOut, t, t.receiver)
  {
    var d := Answer(Deliver(c, seg), seg);
    assert d.sender.segmentsOut != [];
    FlushTells(d);
    FlushReceiver(d);
  }

  lemma ArrivalExchanges(c: Connection, seg: Segment)
    requires Ready(c) && Exchanges(c, seg)
    ensures SegmentReceived(c, seg) == Exchange(c.(sinceLast := 0), seg)
  {
  }

  /**
   * A segment that takes up sequence space and reaches an open connection is answered: something is queued, and
   * every segment queued by the call acknowledges exactly what the receiver has after it.
   */
  lemma SegmentIsAnswered(c: Connection, seg: Segment)
    requires Ready(c) && Exchanges(c, seg)
    requires !seg.header.rst && seg.Length() > 0 && R.SegmentReceived(c.receiver, seg).syn
    ensures var t := SegmentReceived(c, seg);
            t.receiver == R.SegmentReceived(c.receiver, seg)
            && |c.segmentsOut| < |t.segmentsOut| && AllTell(c.segmentsOut, t, t.receiver)
  {
    ArrivalExchanges(c, seg);
    ExchangeAnswers(c.(sinceLast := 0), seg);
  }

  /** What the acknowledgement in a segment lets the sender queue. */
  function Freed(c: Connection, seg: Segment): seq<Segment>
    requires c.sender.stream.Valid()
  {
    S.AckReceived(c.sender, seg.header.ackno, seg.header.win).segmentsOut
  }

  /** If there is nothing else to send, the answer is one empty segment with the next sequence number. */
  lemma AnsweredByPureAck(c: Connection, seg: Segment)
    requires Ready(c) && Exchanges(c, seg)
    requires !seg.header.rst && seg.Length() > 0 && R.SegmentReceived(c.receiver, seg).syn && Freed(c, seg) == []
    ensures var t := SegmentReceived(c, seg);
            && |t.segmentsOut| == |c.segmentsOut| + 1
            && var ack := t.segmentsOut[|c.segmentsOut|];
               ack.Length() == 0 && !ack.header.rst && ack.header.seqno == Wrap(t.sender.nextSeqno, t.sender.isn)
  {
    ArrivalExchanges(c, seg);
    var d := QueueEmpty(Deliver(c.(sinceLast := 0), seg));
    FlushTells(d);
    assert StampAll(d.receiver, d.sender.segmentsOut)[0] == Stamp(d.receiver, d.sender.segmentsOut[0]);
  }

  /** A segment that takes up no sequence space is not answered: only what its acknowledgement freed is sent. */
  lemma EmptyIsNotAnswered(c: Connection, seg: Segment)
    requires Ready(c) && Exchanges(c, seg) && !seg.header.rst && seg.Length() == 0
    ensures var t := SegmentReceived(c, seg);
            t.segmentsOut == c.segmentsOut + StampAll(t.receiver, Freed(c, seg))
    ensures !P.NewlyAcks(c.sender, seg.header.ackno) && c.sender.segmentsOut == [] ==> Freed(c, seg) == []
  {
    ArrivalExchanges(c, seg);
    FlushReceiver(Deliver(c.(sinceLast := 0), seg));
  }

  /** A reset stops an open connection: both streams fail, and exactly one segment goes out, itself a reset. */
  lemma ResetStops(c: Connection, seg: Segment)
    requires Ready(c) && Exchanges(c, seg) && seg.header.rst
    ensures var t := SegmentReceived(c, seg);
            && !t.active && t.sender.stream.error && t.receiver.asm.error
            && |t.segmentsOut| == |c.segmentsOut| + 1 && c.segmentsOut <= t.segmentsOut
            && t.segmentsOut[|c.segmentsOut|].header.rst
  {
    ArrivalExchanges(c, seg);
  }

  // ---- Opening ----

  /** A connection that listens takes only a SYN, and answers it with its own SYN and an acknowledgement. */
  lemma ListenerAnswersSyn(c: Connection, seg: Segment)
    requires Inv(c) && Ready(c) && c.active && Listening(c)
    ensures !seg.header.syn ==> SegmentReceived(c, seg) == c.(sinceLast := 0)
    ensures seg.header.syn ==>
              var t := SegmentReceived(c, seg);
              && t.receiver.syn && t.receiver.isn == seg.header.seqno && t.sender.nextSeqno == 1
              && AllTell(c.segmentsOut, t, t.receiver) && |c.segmentsOut| < |t.segmentsOut|
              && var last := t.segmentsOut[|t.segmentsOut| - 1];
                 last.header.syn && last.Length() == 1 && last.header.seqno == Wrap(0, t.sender.isn)
  {
    if seg.header.syn {
      var d := c.(sinceLast := 0, receiver := R.SegmentReceived(c.receiver, seg));
      assert SegmentReceived(c, seg) == FillAndFlush(d);
      assert !c.sender.synSent;
      SynGoesOut(d);
    }
  }

  lemma SynGoesOut(d: Connection)
    requires d.receiver.syn && !d.sender.synSent && d.sender.nextSeqno == 0 && d.sender.stream.Valid()
    ensures var t := FillAndFlush(d);
            && t.receiver == d.receiver && t.sender.nextSeqno == 1 && t.sender.isn == d.sender.isn
            && AllTell(d.segmentsOut, t, t.receiver) && |d.segmentsOut| < |t.segmentsOut|
            && var last := t.segmentsOut[|t.segmentsOut| - 1];
               last.header.syn && last.Length() == 1 && last.header.seqno == Wrap(0, d.sender.isn)
  {
    var f := d.(sender := S.FillWindow(d.sender));
    var queued := f.sender.segmentsOut;
    assert queued == d.sender.segmentsOut + [SYN_SEGMENT.At(Wrap(0, d.sender.isn))];
    FlushTells(f);
    FlushReceiver(f);
    assert StampAll(f.receiver, queued)[|queued| - 1] == Stamp(f.receiver, queued[|queued| - 1]);
  }

  /**
   * A connection that has sent SYN and heard nothing takes a bare SYN, and queues an acknowledgement of it; it
   * stops, silently, at a reset that acknowledges; and it ignores data and whatever else lacks ACK.
   */
  lemma OpenerTakes(c: Connection, seg: Segment)
    requires Inv(c) && Ready(c) && c.active && !Listening(c) && Opening(c)
    ensures var t := SegmentReceived(c, seg);
            && (!seg.header.ack && seg.header.syn ==>
                  && t.receiver.syn && t.receiver.isn == seg.header.seqno && t.active
                  && t.sender.segmentsOut
                     == c.sender.segmentsOut + [EMPTY_SEGMENT.At(Wrap(c.sender.nextSeqno, c.sender.isn))])
            && (seg.header.ack && seg.payload == [] && seg.header.rst ==>
                  !t.active && t.sender.stream.error && t.receiver.asm.error && t.segmentsOut == c.segmentsOut)
            && ((seg.header.ack && seg.payload != []) || (!seg.header.ack && !seg.header.syn) ==>
                  t == c.(sinceLast := 0))
  {
  }

  // ---- Two-party runs ----

  /** A flagged acknowledgement of exactly what r has is on the wire. */
  ghost predicate OnWire(net: set<Segment>, r: R.Receiver) { exists seg :: seg in net && Tells(seg, r) }

  lemma ActAnswers(sys: System, seg: Segment, next: System)
    requires ActsAtA(sys, Arrives(seg), next) && Exchanges(sys.a, seg) && sys.a.segmentsOut == []
    requires !seg.header.rst && seg.Length() > 0 && next.a.receiver.syn
    ensures OnWire(next.ab, next.a.receiver)
  {
    var t := SegmentReceived(sys.a, seg);
    ArrivalAtReceiver(sys.a, seg);
    SegmentIsAnswered(sys.a, seg);
    assert t.segmentsOut[0] in next.ab;
  }

  /**
   * In every two-party run, after every arrival that takes up sequence space at an open connection, and is not a
   * reset, an acknowledgement of all that its receiver now has is on the wire.
   */
  lemma ArrivalIsAcknowledged(states: seq<System>, acts: seq<Action>, i: nat, seg: Segment)
    requires IsRun(states, acts) && i < |acts| && !seg.header.rst && seg.Length() > 0
    ensures acts[i] == AtA(Arrives(seg)) && Exchanges(states[i].a, seg) && states[i + 1].a.receiver.syn ==>
              OnWire(states[i + 1].ab, states[i + 1].a.receiver)
    ensures acts[i] == AtB(Arrives(seg)) && Exchanges(states[i].b, seg) && states[i + 1].b.receiver.syn ==>
              OnWire(states[i + 1].ba, states[i + 1].b.receiver)
  {
    RunKeepsHonest(states, acts, i);
    if acts[i] == AtA(Arrives(seg)) && Exchanges(states[i].a, seg) && states[i + 1].a.receiver.syn {
      ActAnswers(states[i], seg, states[i + 1]);
    }
    if acts[i] == AtB(Arrives(seg)) && Exchanges(states[i].b, seg) && states[i + 1].b.receiver.syn {
      ActAnswers(Swap(states[i]), seg, Swap(states[i + 1]));
    }
  }
}
