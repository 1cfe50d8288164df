/** What every call on a connection keeps, over any run, and what that says about closing and giving up. */
module ConnectionInvariant {
  import opened Numbers
  import opened TcpSegment
  import opened Options
  import opened ByteStream
  import opened ConnectionModel
  import R = ReceiverModel
  import S = SenderModel
  import I = SenderInvariant
  import P = SenderProperties

  datatype Event =
    | Arrives(seg: Segment)
    | Writes(data: seq<byte>)
    | Ticks(ms: nat)
    | Ends
    | Connects
    | Reads(len: nat)

  /** The application writes nothing after the end, and the stream stays below INT32_MAX - 2 bytes. */
  ghost predicate Enabled(c: Connection, e: Event) {
    && R.Representable(c.receiver)
    && (e.Writes? && e.data != [] ==>
          && c.sender.stream.Valid() && !c.sender.stream.ended
          && |c.sender.stream.Write(e.data).written| < INT32_MAX - 2)
  }

  function Step(c: Connection, e: Event): Connection
    requires Ready(c)
  {
    match e
    case Arrives(seg) => SegmentReceived(c, seg)
    case Writes(data) => Write(c, data)
    case Ticks(ms) => Tick(c, ms)
    case Ends => EndInput(c)
    case Connects => Connect(c)
    case Reads(len) => Read(c, len)
  }

  // ---- The invariant ----

  ghost predicate AllSent(segs: seq<Segment>, s: S.Sender) {
    forall seg :: seg in segs ==> I.Sent(seg, s.isn, s.stream)
  }

  ghost predicate Core(c: Connection) {
    && I.Inv(c.sender) && P.BackedOff(c.sender) && R.Valid(c.receiver)
    && AllSent(c.segmentsOut, c.sender)
    && (c.active ==> c.sender.retransmissions <= MAX_RETX_ATTEMPTS)
    && (c.receiver.asm.error ==> !c.active)
  }

  /** Both directions are finished, and the peer either closed first or has been silent long enough. */
  ghost predicate Justified(c: Connection) {
    && c.sender.finSent && c.sender.bytesInFlight == 0 && c.receiver.asm.ended
    && (!c.linger || c.sinceLast >= 10 * c.rtTimeout)
  }

  /** Stopped without an error means stopped for good reason. */
  ghost predicate ClosedRight(c: Connection) { !c.active && !c.receiver.asm.error ==> Justified(c) }

  ghost predicate Inv(c: Connection) { Core(c) && P.EndIsSent(c.sender) && ClosedRight(c) }

  lemma FreshInv(recvCapacity: nat, sendCapacity: nat, rtTimeout: u16, isn: u32)
    ensures Inv(Fresh(recvCapacity, sendCapacity, rtTimeout, isn))
  {
    I.FreshInv(sendCapacity, rtTimeout, isn);
  }

  /** The parts' demands are met whenever the invariant holds: the timer never fires on an empty queue. */
  lemma InvIsReady(c: Connection)
    requires Core(c) && R.Representable(c.receiver)
    ensures Ready(c)
  {
  }

  // ---- Stamping and flushing ----

  lemma SameSlice(seg: Segment, out: Segment, isn: u32, stream: Stream)
    requires I.Sent(seg, isn, stream)
    requires out.payload == seg.payload && out.header.seqno == seg.header.seqno
    requires out.header.syn == seg.header.syn && out.header.fin == seg.header.fin
    ensures I.Sent(out, isn, stream)
  {
    var start :| SliceAt(seg, isn, stream.written, start);
    assert SliceAt(out, isn, stream.written, start);
  }

  /** The acknowledgement fields and the reset flag do not matter for what a segment carries. */
  lemma StampKeepsSent(r: R.Receiver, seg: Segment, isn: u32, stream: Stream)
    requires I.Sent(seg, isn, stream)
    ensures var out := Stamp(r, seg);
            I.Sent(out, isn, stream) && I.Sent(out.(header := out.header.(rst := true)), isn, stream)
  {
    var out := Stamp(r, seg);
    SameSlice(seg, out, isn, stream);
    SameSlice(seg, out.(header := out.header.(rst := true)), isn, stream);
  }

  lemma StampAllSent(r: R.Receiver, segs: seq<Segment>, s: S.Sender)
    requires AllSent(segs, s)
    ensures AllSent(StampAll(r, segs), s)
  {
    var out := StampAll(r, segs);
    forall seg | seg in out
      ensures I.Sent(seg, s.isn, s.stream)
    {
      var i :| 0 <= i < |out| && out[i] == seg;
      assert segs[i] in segs;
      StampKeepsSent(r, segs[i], s.isn, s.stream);
    }
  }

  /** Only the stream and the ISN matter for what counts as correctly sent. */
  lemma AllSentFrame(segs: seq<Segment>, s: S.Sender, t: S.Sender)
    requires AllSent(segs, s) && t.isn == s.isn
    requires t.stream.written == s.stream.written && (s.stream.ended ==> t.stream.ended)
    ensures AllSent(segs, t)
  {
    forall seg | seg in segs
      ensures I.Sent(seg, t.isn, t.stream)
    {
      var start :| SliceAt(seg, s.isn, s.stream.written, start);
      assert SliceAt(seg, t.isn, t.stream.written, start);
    }
  }

  lemma DrainedInv(s: S.Sender)
    requires I.Inv(s)
    ensures I.Inv(s.(segmentsOut := []))
  {
  }

  lemma FlushKeepsInv(c: Connection)
    requires Inv(c)
    ensures Inv(Flush(c)) && P.Evolves(c.sender, Flush(c).sender)
  {
    StampAllSent(c.receiver, c.sender.segmentsOut, c.sender);
    DrainedInv(c.sender);
    var d := Flush(c);
    AllSentFrame(c.segmentsOut, c.sender, d.sender);
    AllSentFrame(StampAll(c.receiver, c.sender.segmentsOut), c.sender, d.sender);
  }

  lemma FillAndFlushKeepsInv(c: Connection)
    requires Core(c) && ClosedRight(c)
    ensures Inv(FillAndFlush(c)) && P.Evolves(c.sender, FillAndFlush(c).sender)
  {
    var t := S.FillWindow(c.sender);
    I.FillWindowKeepsInv(c.sender);
    P.FillWindowOnlySends(c.sender);
    P.FillWindowSendsEnd(c.sender);
    P.SameBackoffState(c.sender, t);
    AllSentFrame(c.segmentsOut, c.sender, t);
    FlushKeepsInv(c.(sender := t));
  }

  // ---- Each call ----

  lemma DeliverKeepsCore(c: Connection, seg: Segment)
    requires Inv(c) && c.active && R.Representable(c.receiver)
    ensures var d := Deliver(c, seg);
            Core(d) && P.EndIsSent(d.sender) && d.active && P.Evolves(c.sender, d.sender)
  {
    I.AckReceivedKeepsInv(c.sender, seg.header.ackno, seg.header.win);
    P.AckReceivedSendsEnd(c.sender, seg.header.ackno, seg.header.win);
    P.AckReceivedEvolves(c.sender, seg.header.ackno, seg.header.win);
    P.AckReceivedBackedOff(c.sender, seg.header.ackno, seg.header.win);
    R.ReceiveKeepsValid(c.receiver, seg);
    R.ReceiveKeepsError(c.receiver, seg);
    AllSentFrame(c.segmentsOut, c.sender, Deliver(c, seg).sender);
  }

  lemma QueueEmptyKeepsInv(c: Connection)
    requires Inv(c)
    ensures Inv(QueueEmpty(c)) && P.Evolves(c.sender, QueueEmpty(c).sender)
  {
    I.SendEmptyKeepsInv(c.sender);
    AllSentFrame(c.segmentsOut, c.sender, QueueEmpty(c).sender);
  }

  lemma ErrorKeepsSenderInv(s: S.Sender)
    requires I.Inv(s)
    ensures I.Inv(s.(stream := s.stream.SetError()))
  {
    var t := s.(stream := s.stream.SetError());
    AllSentFrame(s.segmentsOut, s, t);
  }

  lemma FailKeepsInv(c: Connection)
    requires Inv(c)
    ensures Inv(Fail(c)) && P.Evolves(c.sender, Fail(c).sender)
  {
    ErrorKeepsSenderInv(c.sender);
    AllSentFrame(c.segmentsOut, c.sender, Fail(c).sender);
  }

  lemma UncleanKeepsInv(c: Connection)
    requires Core(c) && P.EndIsSent(c.sender) && c.sender.segmentsOut != []
    ensures Inv(UncleanShutdown(c)) && P.Evolves(c.sender, UncleanShutdown(c).sender)
  {
    var d, seg := UncleanShutdown(c), c.sender.segmentsOut[0];
    ErrorKeepsSenderInv(c.sender);
    StampKeepsSent(Fail(c).receiver, seg, c.sender.isn, c.sender.stream);
    var out := Stamp(Fail(c).receiver, seg);
    assert AllSent([out.(header := out.header.(rst := true))], c.sender);
    AllSentFrame([out.(header := out.header.(rst := true))], c.sender, d.sender);
    AllSentFrame(c.segmentsOut, c.sender, d.sender);
  }

  lemma ExchangeKeepsInv(c: Connection, seg: Segment)
    requires Inv(c) && c.active && R.Representable(c.receiver)
    ensures Inv(Exchange(c, seg)) && P.Evolves(c.sender, Exchange(c, seg).sender)
  {
    var d := Deliver(c, seg);
    DeliverKeepsCore(c, seg);
    if seg.header.rst {
      ResetKeepsInv(d);
    } else {
      AnswerKeepsInv(d, seg);
    }
    EvolvesOn(c.sender, d.sender, Exchange(c, seg).sender);
  }

  lemma ResetKeepsInv(d: Connection)
    requires Core(d) && P.EndIsSent(d.sender) && d.active
    ensures Inv(UncleanShutdown(QueueEmpty(d))) && P.Evolves(d.sender, UncleanShutdown(QueueEmpty(d)).sender)
  {
    QueueEmptyKeepsInv(d);
    UncleanKeepsInv(QueueEmpty(d));
    EvolvesOn(d.sender, QueueEmpty(d).sender, UncleanShutdown(QueueEmpty(d)).sender);
  }

  lemma AnswerKeepsInv(d: Connection, seg: Segment)
    requires Core(d) && P.EndIsSent(d.sender) && d.active
    ensures Inv(Flush(Answer(d, seg))) && P.Evolves(d.sender, Flush(Answer(d, seg)).sender)
  {
    QueueEmptyKeepsInv(d);
    FlushKeepsInv(Answer(d, seg));
  }

  lemma EvolvesOn(s: S.Sender, t: S.Sender, u: S.Sender)
    requires P.Evolves(s, t) && P.Evolves(t, u)
    ensures P.Evolves(s, u)
  {
  }

  lemma ReceiverOnlyKeepsInv(c: Connection, seg: Segment)
    requires Inv(c) && c.active && R.Representable(c.receiver)
    ensures Inv(c.(receiver := R.SegmentReceived(c.receiver, seg)))
  {
    R.ReceiveKeepsValid(c.receiver, seg);
    R.ReceiveKeepsError(c.receiver, seg);
  }

  lemma SegmentReceivedKeepsInv(c: Connection, seg: Segment)
    requires Inv(c) && Ready(c)
    ensures Inv(SegmentReceived(c, seg)) && P.Evolves(c.sender, SegmentReceived(c, seg).sender)
  {
    if c.active {
      var d := c.(sinceLast := 0);
      ReceiverOnlyKeepsInv(d, seg);
      var r := d.(receiver := R.SegmentReceived(d.receiver, seg));
      if Listening(c) {
        FillAndFlushKeepsInv(r);
      } else if SynSent(c) && R.Ackno(c.receiver) == None && (seg.payload != [] || !seg.header.ack) {
        QueueEmptyKeepsInv(r);
      } else if SynSent(c) && R.Ackno(c.receiver) == None && seg.header.rst {
        FailKeepsInv(d);
      } else {
        ExchangeKeepsInv(d, seg);
      }
    }
  }

  lemma WriteKeepsInv(c: Connection, data: seq<byte>)
    requires Inv(c) && Ready(c) && Enabled(c, Writes(data))
    ensures Inv(Write(c, data)) && P.Evolves(c.sender, Write(c, data).sender)
  {
    if data != [] {
      var t := c.sender.(stream := c.sender.stream.Write(data));
      I.WriteKeepsInv(c.sender, data);
      forall seg | seg in c.segmentsOut
        ensures I.Sent(seg, t.isn, t.stream)
      {
        I.SentGrows(seg, c.sender.isn, c.sender.stream, data);
      }
      FillAndFlushKeepsInv(c.(sender := t));
    }
  }

  lemma EndInputKeepsInv(c: Connection)
    requires Inv(c) && Ready(c)
    ensures Inv(EndInput(c)) && P.Evolves(c.sender, EndInput(c).sender)
  {
    var t := c.sender.(stream := c.sender.stream.EndInput());
    I.EndInputKeepsInv(c.sender);
    AllSentFrame(c.segmentsOut, c.sender, t);
    FillAndFlushKeepsInv(c.(sender := t));
  }

  /** Giving up always finds a segment to send as the reset, and an active connection has counted at most eight. */
  lemma TickKeepsInv(c: Connection, ms: nat)
    requires Inv(c) && Ready(c)
    ensures Inv(Tick(c, ms)) && P.Evolves(c.sender, Tick(c, ms).sender)
  {
    if c.active {
      var d := Elapse(c, ms);
      I.TickKeepsInv(c.sender, ms);
      P.TickBackedOff(c.sender, ms);
      AllSentFrame(c.segmentsOut, c.sender, d.sender);
      if d.sender.retransmissions > MAX_RETX_ATTEMPTS {
        UncleanKeepsInv(d.(active := false));
        assert UncleanShutdown(d) == UncleanShutdown(d.(active := false));
        FlushKeepsInv(UncleanShutdown(d));
      } else {
        FlushKeepsInv(d);
      }
    }
  }

  lemma ReadKeepsInv(c: Connection, len: nat)
    requires Inv(c) && Ready(c)
    ensures Inv(Read(c, len)) && P.Evolves(c.sender, Read(c, len).sender)
  {
  }

  lemma StepKeepsInv(c: Connection, e: Event)
    requires Inv(c) && Enabled(c, e)
    ensures Ready(c) && Inv(Step(c, e)) && P.Evolves(c.sender, Step(c, e).sender)
  {
    InvIsReady(c);
    match e
    case Arrives(seg) => SegmentReceivedKeepsInv(c, seg);
    case Writes(data) => WriteKeepsInv(c, data);
    case Ticks(ms) => TickKeepsInv(c, ms);
    case Ends => EndInputKeepsInv(c);
    case Connects => FillAndFlushKeepsInv(c);
    case Reads(len) => ReadKeepsInv(c, len);
  }
}
