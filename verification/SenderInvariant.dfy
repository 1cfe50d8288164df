/** What every operation of the sender keeps: in-flight segments tile the sequence space of one stream. */
module SenderInvariant {
  import opened Numbers
  import opened WrappingIntegers
  import opened TcpSegment
  import opened ByteStream
  import opened SenderModel

  function Total(segs: seq<Segment>): nat {
    if segs == [] then 0 else segs[0].Length() + Total(segs[1..])
  }

  /** Segments that are numbered and kept: never empty, at most one payload, SYN on its own. */
  predicate FitToSend(seg: Segment) {
    seg.Length() > 0 && |seg.payload| <= MAX_PAYLOAD_SIZE && (seg.header.syn ==> seg.Length() == 1)
  }

  /** Back to back from start, the segments are non-empty slices of SYN, w, FIN. */
  ghost predicate Tiles(segs: seq<Segment>, isn: u32, w: seq<byte>, start: nat) {
    segs != [] ==>
    && SliceAt(segs[0], isn, w, start)
    && FitToSend(segs[0])
    && Tiles(segs[1..], isn, w, start + segs[0].Length())
  }

  /** A segment fit to be on the wire: a slice of the sender's stream; its FIN, if any, is final. */
  ghost predicate Sent(seg: Segment, isn: u32, stream: Stream) {
    && (exists start :: SliceAt(seg, isn, stream.written, start))
    && (seg.header.fin ==> stream.ended)
    && |seg.payload| <= MAX_PAYLOAD_SIZE
  }

  /** First sequence number in flight. */
  function Front(s: Sender): int { s.nextSeqno - s.bytesInFlight }

  /** The next sequence number counts SYN, the bytes taken from the stream, and FIN. */
  ghost predicate Positioned(s: Sender) {
    && s.stream.Valid() && |s.stream.written| < INT32_MAX - 2
    && s.nextSeqno == (if s.synSent then 1 else 0) + s.stream.read + (if s.finSent then 1 else 0)
    && (!s.synSent ==> s.stream.read == 0 && !s.finSent)
    && (s.finSent ==> s.stream.Eof())
    && s.window < TWO_16
  }

  ghost predicate Tiling(s: Sender) {
    && s.bytesInFlight == Total(s.outstanding) && 0 <= Front(s) <= s.rcvBase <= s.nextSeqno
    && Tiles(s.outstanding, s.isn, s.stream.written, Front(s))
  }

  /** The last accepted acknowledgement lies inside the oldest segment in flight. */
  ghost predicate FrontHoldsAck(s: Sender) {
    s.outstanding != [] ==> s.rcvBase < Front(s) + s.outstanding[0].Length()
  }

  ghost predicate TimerRight(s: Sender) { s.timerRunning <==> s.outstanding != [] }

  ghost predicate OutputRight(s: Sender) { forall seg :: seg in s.segmentsOut ==> Sent(seg, s.isn, s.stream) }

  ghost predicate Inv(s: Sender) {
    Positioned(s) && Tiling(s) && FrontHoldsAck(s) && TimerRight(s) && OutputRight(s)
  }

  lemma FreshInv(capacity: nat, rto: u16, isn: u32)
    ensures Inv(Fresh(capacity, rto, isn))
  {
  }

  // ---- Sequences of tiles ----

  lemma {:induction false} TilesAppend(segs: seq<Segment>, isn: u32, w: seq<byte>, start: nat, seg: Segment)
    requires Tiles(segs, isn, w, start)
    requires SliceAt(seg, isn, w, start + Total(segs)) && FitToSend(seg)
    ensures Tiles(segs + [seg], isn, w, start) && Total(segs + [seg]) == Total(segs) + seg.Length()
  {
    if segs == [] {
      assert segs + [seg] == [seg];
    } else {
      TilesAppend(segs[1..], isn, w, start + segs[0].Length(), seg);
      assert (segs + [seg])[1..] == segs[1..] + [seg];
    }
  }

  /** A slice that does not reach the end stays a slice when the stream grows. */
  lemma SliceGrows(seg: Segment, isn: u32, w: seq<byte>, start: nat, more: seq<byte>)
    requires SliceAt(seg, isn, w, start) && !seg.header.fin
    ensures SliceAt(seg, isn, w + more, start)
  {
    if seg.payload != [] {
      var p := PayloadAt(seg, start);
      assert (w + more)[p..p + |seg.payload|] == w[p..p + |seg.payload|];
    }
  }

  lemma {:induction false} TilesGrow(segs: seq<Segment>, isn: u32, w: seq<byte>, start: nat, more: seq<byte>)
    requires Tiles(segs, isn, w, start) && start + Total(segs) <= |w| + 1
    ensures Tiles(segs, isn, w + more, start)
  {
    if segs != [] {
      SliceGrows(segs[0], isn, w, start, more);
      TilesGrow(segs[1..], isn, w, start + segs[0].Length(), more);
    }
  }

  /** The k-th segment in flight starts where the ones before it end. */
  lemma {:induction false} TileAt(segs: seq<Segment>, isn: u32, w: seq<byte>, start: nat, k: nat)
    requires Tiles(segs, isn, w, start) && k < |segs|
    ensures SliceAt(segs[k], isn, w, start + Total(segs[..k])) && segs[k].Length() > 0
    ensures start + Total(segs[..k + 1]) == start + Total(segs[..k]) + segs[k].Length()
  {
    if k == 0 {
      assert segs[..1] == [segs[0]];
    } else {
      TileAt(segs[1..], isn, w, start + segs[0].Length(), k - 1);
      assert segs[..k][1..] == segs[1..][..k - 1];
      assert segs[..k + 1][1..] == segs[1..][..k];
    }
  }

  // ---- Sending ----

  lemma EmitExact(s: Sender, seg: Segment)
    requires s.nextSeqno + seg.Length() < TWO_64 && s.bytesInFlight + seg.Length() < TWO_64
    ensures var t := Emit(s, seg);
            t.nextSeqno == s.nextSeqno + seg.Length() && t.bytesInFlight == s.bytesInFlight + seg.Length()
  {
  }

  /** Sending the next slice keeps the tiling and hands a correct segment to the network. */
  lemma EmitKeepsTiling(s: Sender, seg: Segment)
    requires Tiling(s) && FrontHoldsAck(s) && TimerRight(s) && OutputRight(s)
    requires |s.stream.written| < INT32_MAX - 2
    requires SliceAt(seg.At(Wrap(s.nextSeqno, s.isn)), s.isn, s.stream.written, s.nextSeqno)
    requires FitToSend(seg) && (seg.header.fin ==> s.stream.ended)
    ensures var t := Emit(s, seg);
            && Tiling(t) && FrontHoldsAck(t) && TimerRight(t) && OutputRight(t)
            && t.nextSeqno == s.nextSeqno + seg.Length() && Front(t) == Front(s)
  {
    var n := seg.At(Wrap(s.nextSeqno, s.isn));
    EmitExact(s, seg);
    TilesAppend(s.outstanding, s.isn, s.stream.written, Front(s), n);
    assert Sent(n, s.isn, s.stream);
    if s.outstanding != [] {
      assert (s.outstanding + [n])[0] == s.outstanding[0];
    }
  }

  lemma SendSyn(s: Sender)
    requires Inv(s) && !s.synSent
    ensures Inv(Emit(s.(synSent := true), SYN_SEGMENT))
  {
    EmitKeepsTiling(s.(synSent := true), SYN_SEGMENT);
  }

  lemma SendFin(s: Sender, edge: u32)
    requires Inv(s) && s.synSent && !s.finSent
    ensures Inv(FinAlone(s, edge))
  {
    if s.stream.Eof() && edge > s.nextSeqno {
      EmitKeepsTiling(s.(finSent := true), DataSegment([], true));
    }
  }

  /** What is read next from the stream is the next slice. */
  lemma NextIsSlice(s: Sender, n: nat, fin: bool)
    requires Positioned(s) && s.synSent && !s.finSent && 0 < n <= s.stream.BufferSize()
    requires fin ==> n == s.stream.BufferSize()
    ensures var payload := s.stream.Peek(n);
            |payload| == n
            && SliceAt(DataSegment(payload, fin).At(Wrap(s.nextSeqno, s.isn)), s.isn, s.stream.written, s.nextSeqno)
  {
    var r, payload := s.stream.read, s.stream.Peek(n);
    assert payload == s.stream.written[r..r + n];
  }

  /** Reading from the stream leaves alone what is in flight and what was sent. */
  lemma ReadingKeeps(s: Sender, n: nat, fin: bool)
    requires Inv(s)
    ensures var t := s.(stream := s.stream.Pop(n), finSent := s.finSent || fin);
            Tiling(t) && FrontHoldsAck(t) && TimerRight(t) && OutputRight(t)
  {
    var rest := s.stream.Pop(n);
    assert forall g :: Sent(g, s.isn, s.stream) <==> Sent(g, s.isn, rest);
  }

  /** One data segment keeps the invariant. */
  lemma SendDataKeepsInv(s: Sender, n: nat)
    requires Inv(s) && s.synSent && !s.finSent && s.stream.BufferSize() > 0 && 0 < n <= MAX_PAYLOAD_SIZE
    ensures Inv(SendData(s, n)) && SendData(s, n).synSent
    ensures var m := Min(n, s.stream.BufferSize());
            SendData(s, n).nextSeqno == s.nextSeqno + m + if SendData(s, n).finSent then 1 else 0
  {
    var m := Min(n, s.stream.BufferSize());
    assert s.stream.Peek(n) == s.stream.Peek(m) && s.stream.Pop(n) == s.stream.Pop(m);
    var payload, rest := s.stream.Peek(m), s.stream.Pop(m);
    var fin := rest.Eof() && |payload| < s.window;
    NextIsSlice(s, m, fin);
    ReadingKeeps(s, m, fin);
    EmitKeepsTiling(s.(stream := rest, finSent := s.finSent || fin), DataSegment(payload, fin));
  }

  lemma {:induction false} SendAllKeepsInv(s: Sender, edge: u32)
    requires Inv(s) && s.synSent
    ensures Inv(SendAll(s, edge)) && SendAll(s, edge).synSent
    decreases s.stream.BufferSize()
  {
    if CanSend(s, edge) {
      var n := Min(Free(s, edge), MAX_PAYLOAD_SIZE);
      SendDataKeepsInv(s, n);
      SendAllKeepsInv(SendData(s, n), edge);
    }
  }

  lemma FillWindowKeepsInv(s: Sender)
    requires Inv(s)
    ensures Inv(FillWindow(s)) && FillWindow(s).synSent
  {
    if !s.synSent {
      SendSyn(s);
    } else if !WaitingForSyn(s) && !s.finSent {
      var w := Widened(s);
      SendFin(w, Edge(w));
      SendAllKeepsInv(FinAlone(w, Edge(w)), Edge(w));
    }
  }

  // ---- Acknowledgements ----

  /** With fewer than 2^31 sequence numbers in use, the front segment's end is computed exactly. */
  lemma EndOfFrontExact(s: Sender)
    requires Positioned(s) && Tiling(s) && s.outstanding != []
    ensures EndOfFront(s) == Front(s) + s.outstanding[0].Length()
  {
    UnwrapInvertsWrap(Front(s), s.isn, s.rcvBase);
  }

  lemma DropFrontKeepsTiling(s: Sender)
    requires Positioned(s) && Tiling(s) && OutputRight(s) && s.outstanding != []
    requires Front(s) + s.outstanding[0].Length() <= s.rcvBase
    ensures Positioned(DropFront(s)) && Tiling(DropFront(s)) && OutputRight(DropFront(s))
  {
    assert DropFront(s).bytesInFlight == s.bytesInFlight - s.outstanding[0].Length();
  }

  lemma {:induction false} DropAckedKeepsTiling(s: Sender)
    requires Positioned(s) && Tiling(s) && OutputRight(s)
    ensures var d := DropAcked(s, s.rcvBase);
            Positioned(d) && Tiling(d) && FrontHoldsAck(d) && OutputRight(d) && d.timerRunning == s.timerRunning
    decreases |s.outstanding|
  {
    if s.outstanding != [] {
      EndOfFrontExact(s);
      if s.rcvBase >= EndOfFront(s) {
        DropFrontKeepsTiling(s);
        DropAckedKeepsTiling(DropFront(s));
      }
    }
  }

  lemma AdvanceKeepsInv(s: Sender, ack: u64)
    requires Inv(s) && s.rcvBase < ack <= s.nextSeqno
    ensures Inv(Advance(s, ack)) && Advance(s, ack).rcvBase == ack
  {
    var moved := s.(rcvBase := ack);
    assert ack % TWO_32 == ack;
    DropAckedKeepsTiling(moved);
    var d := DropAcked(moved, ack);
    assert d.rcvBase == ack by {
      DropAckedFrame(moved, ack);
    }
    RearmKeeps(d, |d.outstanding| < |s.outstanding|);
  }

  lemma RearmKeeps(d: Sender, newData: bool)
    requires Positioned(d) && Tiling(d) && FrontHoldsAck(d) && OutputRight(d)
    requires d.outstanding != [] ==> d.timerRunning
    ensures Inv(Rearm(d, newData))
  {
  }

  /** Dropping acknowledged segments touches the queue and the in-flight count, nothing else. */
  lemma {:induction false} DropAckedFrame(s: Sender, ack: u64)
    ensures DropAcked(s, ack) == s.(outstanding := DropAcked(s, ack).outstanding,
                                    bytesInFlight := DropAcked(s, ack).bytesInFlight)
    decreases |s.outstanding|
  {
    if s.outstanding != [] && ack >= EndOfFront(s) {
      DropAckedFrame(DropFront(s), ack);
    }
  }

  /** Any acknowledgement number and window, honest or not, keep the invariant. */
  lemma AckReceivedKeepsInv(s: Sender, ackno: u32, win: u16)
    requires Inv(s)
    ensures Inv(AckReceived(s, ackno, win))
  {
    var ack := Unwrap(ackno, s.isn, s.rcvBase);
    if s.rcvBase < ack <= s.nextSeqno {
      var w := s.(window := win, backOff := win != 0);
      AdvanceKeepsInv(w, ack);
      FillWindowKeepsInv(Advance(w, ack));
    }
  }

  // ---- The rest ----

  /** A retransmission is the front segment again; the queue it is taken from is never empty. */
  lemma TickKeepsInv(s: Sender, ms: nat)
    requires Inv(s)
    ensures Inv(Tick(s, ms))
  {
    if s.outstanding != [] {
      var f := s.outstanding[0];
      assert SliceAt(f, s.isn, s.stream.written, Front(s));
      if f.header.fin {
        assert Front(s) + f.Length() == |s.stream.written| + 2;
        assert Front(s) + f.Length() <= s.nextSeqno;
      }
      assert Sent(f, s.isn, s.stream);
    }
  }

  lemma SendEmptyKeepsInv(s: Sender)
    requires Inv(s)
    ensures Inv(SendEmpty(s))
  {
    assert SliceAt(EMPTY_SEGMENT.At(Wrap(s.nextSeqno, s.isn)), s.isn, s.stream.written, s.nextSeqno);
  }

  /** What was sent stays correct while the application writes on; nothing may follow the end. */
  lemma SentGrows(seg: Segment, isn: u32, stream: Stream, data: seq<byte>)
    requires Sent(seg, isn, stream) && stream.Valid() && !stream.ended
    ensures Sent(seg, isn, stream.Write(data))
  {
    var start :| SliceAt(seg, isn, stream.written, start);
    SliceGrows(seg, isn, stream.written, start, stream.Accepted(data));
  }

  lemma WriteKeepsInv(s: Sender, data: seq<byte>)
    requires Inv(s) && !s.stream.ended && |s.stream.Write(data).written| < INT32_MAX - 2
    ensures Inv(s.(stream := s.stream.Write(data)))
  {
    TilesGrow(s.outstanding, s.isn, s.stream.written, Front(s), s.stream.Accepted(data));
    forall seg | seg in s.segmentsOut
      ensures Sent(seg, s.isn, s.stream.Write(data))
    {
      SentGrows(seg, s.isn, s.stream, data);
    }
  }

  lemma EndInputKeepsInv(s: Sender)
    requires Inv(s)
    ensures Inv(s.(stream := s.stream.EndInput()))
  {
    assert forall g :: Sent(g, s.isn, s.stream) ==> Sent(g, s.isn, s.stream.EndInput());
  }
}
