/** The receiving half of TCP (tcp_receiver.cc), as values. */
module ReceiverModel {
  import opened Numbers
  import opened WrappingIntegers
  import opened TcpSegment
  import opened Options
  import A = Assembly

  datatype Receiver = Receiver(syn: bool, fin: bool, isn: u32, rcvBase: nat, asm: A.Assembly)

  function Fresh(capacity: nat): Receiver { Receiver(false, false, 0, 0, A.Empty(capacity)) }

  /** 64-bit arithmetic on stream positions stays exact. */
  ghost predicate Representable(r: Receiver) { A.Valid(r.asm) && A.Cur(r.asm) < TWO_63 }

  /** The segment gets past the listen, duplicate-SYN and duplicate-FIN tests. */
  predicate Taken(r: Receiver, seg: Segment) {
    && (seg.header.syn || r.syn)
    && !(seg.header.syn && r.syn)
    && !(seg.header.fin && r.fin)
  }

  /** The receiver's own record of what the flags say. */
  function Noted(r: Receiver, seg: Segment): Receiver {
    r.(syn := true, isn := if seg.header.syn then seg.header.seqno else r.isn, fin := r.fin || seg.header.fin)
  }

  /** Index in the byte stream of a segment's first byte, in size_t arithmetic. */
  function StreamIndex(r: Receiver, seg: Segment): u64
    requires Representable(r)
  {
    var abs := if seg.header.syn then 1 else Unwrap(seg.header.seqno, r.isn, A.Cur(r.asm));
    (abs - 1) % TWO_64
  }

  /** Sequence number after the last one received in order: SYN, the assembled bytes, and FIN once ended. */
  function Base(r: Receiver): nat { A.Cur(r.asm) + 1 + (if r.asm.ended && r.fin then 1 else 0) }

  function SegmentReceived(r: Receiver, seg: Segment): (r': Receiver)
    requires Representable(r)
    ensures A.Valid(r'.asm)
  {
    if !seg.header.syn && !r.syn then r
    else if seg.header.syn && r.syn then r
    else
      var n := Noted(r, seg);
      if seg.header.fin && r.fin then n
      else
        A.PushKeepsValid(r.asm, seg.payload, StreamIndex(n, seg), seg.header.fin);
        var p := n.(asm := A.Push(r.asm, seg.payload, StreamIndex(n, seg), seg.header.fin));
        p.(rcvBase := Base(p))
  }

  function Ackno(r: Receiver): Option<u32>
  {
    if !r.syn then None else Some(Wrap(r.rcvBase % TWO_64, r.isn))
  }

  function WindowSize(r: Receiver): int { r.asm.capacity - (A.Cur(r.asm) - r.asm.popped) }

  function Read(r: Receiver, len: nat): Receiver
    requires A.Valid(r.asm)
  {
    r.(asm := A.Pop(r.asm, len))
  }

  // ---- What the acknowledgement says ----

  ghost predicate Valid(r: Receiver) {
    && A.Valid(r.asm)
    && (r.syn ==> r.rcvBase == Base(r))
    && (!r.syn ==> !r.fin)
  }

  lemma ReceiveKeepsValid(r: Receiver, seg: Segment)
    requires Valid(r) && Representable(r)
    ensures Valid(SegmentReceived(r, seg))
  {
  }

  /** Segments neither raise nor clear the error, and never undo the end. */
  lemma ReceiveKeepsError(r: Receiver, seg: Segment)
    requires Representable(r)
    ensures var t := SegmentReceived(r, seg);
            t.asm.error == r.asm.error && (r.asm.ended ==> t.asm.ended) && t.asm.capacity == r.asm.capacity
  {
  }

  /** First sequence number the receiver will not take. */
  function RightEdge(r: Receiver): int { r.rcvBase + WindowSize(r) }

  /** The advertised right edge is the reassembler's own acceptance bound, shifted by SYN (and FIN once ended). */
  lemma EdgeIsAcceptanceBound(r: Receiver)
    requires Valid(r) && r.syn
    ensures RightEdge(r) == A.MaxIdx(r.asm) + 1 + (if r.asm.ended && r.fin then 1 else 0)
    ensures 0 <= WindowSize(r) <= r.asm.capacity
  {
    A.LemmaCurInWindow(r.asm);
  }

  /** Acknowledgement and right edge never move back, over any segment and any read. */
  lemma AckNeverDecreases(r: Receiver, seg: Segment, len: nat)
    requires Valid(r) && Representable(r) && r.syn
    ensures var x := SegmentReceived(r, seg);
            x.syn && r.rcvBase <= x.rcvBase && RightEdge(r) <= RightEdge(x)
    ensures var y := Read(r, len);
            Valid(y) && y.rcvBase == r.rcvBase && RightEdge(r) <= RightEdge(y)
  {
    var x := SegmentReceived(r, seg);
    ReceiveKeepsValid(r, seg);
    EdgeIsAcceptanceBound(r);
    EdgeIsAcceptanceBound(x);
    if Taken(r, seg) {
      var i := StreamIndex(Noted(r, seg), seg);
      A.PushKeepsValid(r.asm, seg.payload, i, seg.header.fin);
      A.PushAccepts(r.asm, seg.payload, i, seg.header.fin);
    }
  }

  /** Every stream byte that the acknowledgement covers has been assembled, and the next one has not. */
  lemma AckCoversOnlyAssembled(r: Receiver, i: nat)
    requires Valid(r) && r.syn && !(r.asm.ended && r.fin)
    ensures i + 1 < r.rcvBase ==> i in r.asm.held
    ensures i + 1 == r.rcvBase ==> i !in r.asm.held
  {
  }

  /** Where the end is exact, FIN is acknowledged exactly when every byte before it has been assembled. */
  lemma FinAcknowledgedExactly(r: Receiver, e: nat)
    requires Valid(r) && r.syn && A.EndsAt(r.asm, e) && A.EndExact(r.asm, e, r.fin)
    ensures r.rcvBase == e + 2 <==> r.fin && A.Cur(r.asm) == e
    ensures r.rcvBase <= e + 2
  {
    assert e !in r.asm.held;
  }

  // ---- Slices of one stream ----

  /** All that was accepted is the stream's, and the stream's own ISN is the one in use. */
  ghost predicate Follows(r: Receiver, isn: u32, s: seq<byte>) {
    A.Carries(r.asm, s) && (r.syn ==> r.isn == isn)
  }

  lemma FollowsIsRepresentable(r: Receiver, isn: u32, s: seq<byte>)
    requires A.Valid(r.asm) && Follows(r, isn, s) && |s| < INT32_MAX - 2
    ensures Representable(r) && A.Cur(r.asm) <= |s|
  {
    A.CarriesGivesPrefix(r.asm, s);
  }

  lemma ArrivalIndex(r: Receiver, isn: u32, s: seq<byte>, seg: Segment, start: nat)
    requires A.Cur(r.asm) <= |s| < INT32_MAX - 2 && Representable(r)
    requires r.isn == isn && start <= |s| + 2 && seg.header.seqno == Wrap(start, isn)
    ensures !seg.header.syn && start > 0 ==> StreamIndex(r, seg) == start - 1
  {
    if !seg.header.syn {
      UnwrapInvertsWrap(start, isn, A.Cur(r.asm));
    }
  }

  /** A slice is pushed at the stream index where it belongs. */
  lemma SliceIndex(r: Receiver, isn: u32, s: seq<byte>, seg: Segment, start: nat)
    requires A.Valid(r.asm) && Follows(r, isn, s) && |s| < INT32_MAX - 2 && Representable(r)
    requires SliceAt(seg, isn, s, start) && Taken(r, seg)
    ensures Noted(r, seg).isn == isn
    ensures start + (if seg.header.syn then 1 else 0) > 0 ==> StreamIndex(Noted(r, seg), seg) == PayloadAt(seg, start)
    ensures seg.payload != [] ==> A.Excerpt(s, seg.payload, StreamIndex(Noted(r, seg), seg))
  {
    A.CarriesGivesPrefix(r.asm, s);
    ArrivalIndex(Noted(r, seg), isn, s, seg, start);
  }

  /** Whatever slice of SYN, s, FIN arrives, and however often, the receiver holds only bytes of s. */
  lemma SliceKeepsFollowing(r: Receiver, isn: u32, s: seq<byte>, seg: Segment, start: nat)
    requires A.Valid(r.asm) && Follows(r, isn, s) && |s| < INT32_MAX - 2 && Representable(r)
    requires SliceAt(seg, isn, s, start)
    ensures Follows(SegmentReceived(r, seg), isn, s)
  {
    if Taken(r, seg) {
      SliceIndex(r, isn, s, seg, start);
      A.PushCarries(r.asm, s, seg.payload, StreamIndex(Noted(r, seg), seg), seg.header.fin);
    }
  }

  /** A slice that is taken adds exactly the bytes of it that the window lets in, each at its own place. */
  lemma SliceIsTaken(r: Receiver, isn: u32, s: seq<byte>, seg: Segment, start: nat)
    requires A.Valid(r.asm) && Follows(r, isn, s) && |s| < INT32_MAX - 2 && Representable(r)
    requires SliceAt(seg, isn, s, start) && Taken(r, seg)
    ensures var q, p := SegmentReceived(r, seg), PayloadAt(seg, start);
            && q.syn && (q.fin <==> r.fin || seg.header.fin)
            && (forall i: nat :: i in q.asm.held
                  <==> i in r.asm.held || (p <= i < p + |seg.payload| && i < A.MaxIdx(r.asm)))
            && (forall i: nat :: i in q.asm.held ==> i < |s| && q.asm.held[i] == s[i])
  {
    SliceIndex(r, isn, s, seg, start);
    SliceKeepsFollowing(r, isn, s, seg, start);
    A.PushAccepts(r.asm, seg.payload, StreamIndex(Noted(r, seg), seg), seg.header.fin);
  }

  /** A segment that is not taken adds nothing; so a repeated FIN takes its data with it. */
  lemma RestIsIgnored(r: Receiver, seg: Segment)
    requires Representable(r) && !Taken(r, seg)
    ensures SegmentReceived(r, seg).asm == r.asm && SegmentReceived(r, seg).rcvBase == r.rcvBase
    ensures r.syn && !seg.header.syn ==> seg.header.fin && r.fin
  {
  }

  /** A slice without a gap before it moves the acknowledgement to its end, or to the window's. */
  lemma InOrderAdvances(r: Receiver, isn: u32, s: seq<byte>, seg: Segment, start: nat)
    requires Valid(r) && Follows(r, isn, s) && |s| < INT32_MAX - 2 && Representable(r)
    requires SliceAt(seg, isn, s, start) && Taken(r, seg) && PayloadAt(seg, start) <= A.Cur(r.asm)
    ensures SegmentReceived(r, seg).rcvBase > Min(PayloadAt(seg, start) + |seg.payload|, A.MaxIdx(r.asm))
  {
    var q := SegmentReceived(r, seg);
    SliceIsTaken(r, isn, s, seg, start);
    var c := A.Cur(q.asm);
    assert c !in q.asm.held;
    A.PushKeepsValid(r.asm, seg.payload, StreamIndex(Noted(r, seg), seg), seg.header.fin);
  }

  /** The segment's FIN, if it is taken, does not end the stream too early. */
  ghost predicate FinInOrder(r: Receiver, seg: Segment)
    requires Representable(r)
  {
    Taken(r, seg) && seg.header.fin ==>
      !A.EndsEarly(r.asm, |seg.payload|, StreamIndex(Noted(r, seg), seg), true)
  }

  lemma CarriedEndsAt(a: A.Assembly, s: seq<byte>)
    requires A.Carries(a, s) && |s| < INT32_MAX
    ensures A.EndsAt(a, |s|)
  {
  }

  /** An exact end stays exact, over a segment, if and only if the segment's FIN does not end the stream too early. */
  lemma SliceKeepsEndExactIff(r: Receiver, isn: u32, s: seq<byte>, seg: Segment, start: nat)
    requires A.Valid(r.asm) && Follows(r, isn, s) && |s| < INT32_MAX - 2 && Representable(r)
    requires SliceAt(seg, isn, s, start)
    requires A.EndExact(r.asm, |s|, r.fin)
    ensures A.EndExact(SegmentReceived(r, seg).asm, |s|, SegmentReceived(r, seg).fin) <==> FinInOrder(r, seg)
  {
    if Taken(r, seg) {
      var i := StreamIndex(Noted(r, seg), seg);
      SliceIndex(r, isn, s, seg, start);
      CarriedEndsAt(r.asm, s);
      if seg.payload == [] && !seg.header.fin {
        A.EmptyPushKeepsEnd(r.asm, i, |s|, r.fin);
      } else {
        A.EndExactIff(r.asm, seg.payload, i, seg.header.fin, |s|, r.fin);
      }
    }
  }

  /** The end mark is where the stream ends once FIN has been taken, and unset before. */
  ghost predicate MarkRight(r: Receiver, s: seq<byte>) { r.asm.endIdx == if r.fin then |s| else INT32_MAX }

  /** That much holds however the segments arrive. */
  lemma SliceKeepsMark(r: Receiver, isn: u32, s: seq<byte>, seg: Segment, start: nat)
    requires A.Valid(r.asm) && Follows(r, isn, s) && |s| < INT32_MAX - 2 && Representable(r)
    requires SliceAt(seg, isn, s, start) && MarkRight(r, s)
    ensures MarkRight(SegmentReceived(r, seg), s)
  {
    if Taken(r, seg) {
      SliceIndex(r, isn, s, seg, start);
      PushMarks(r.asm, seg.payload, StreamIndex(Noted(r, seg), seg), seg.header.fin);
    }
  }

  lemma PushMarks(a: A.Assembly, data: seq<byte>, index: nat, eof: bool)
    requires A.Valid(a)
    ensures A.Push(a, data, index, eof).endIdx == if eof then (index + |data|) % TWO_64 else a.endIdx
  {
  }
}

/** The receiver as an object around a reassembler; it computes the model above. */
module TcpReceiver {
  import opened Numbers
  import opened WrappingIntegers
  import opened TcpSegment
  import opened Options
  import opened SR = StreamReassembler
  import A = Assembly
  import R = ReceiverModel

  class TcpReceiver {
    const reassembler: StreamReassembler
    const capacity: nat
    var syn: bool
    var fin: bool
    var isn: u32
    var rcvBase: nat

    ghost function Model(): R.Receiver
      reads this, reassembler, reassembler.output
    {
      R.Receiver(syn, fin, isn, rcvBase, reassembler.Model())
    }

    ghost predicate Valid()
      reads this, reassembler, reassembler.output
    {
      reassembler.Valid() && reassembler.capacity == capacity
    }

    constructor (capacity: nat)
      ensures Valid() && Model() == R.Fresh(capacity)
      ensures fresh(reassembler) && fresh(reassembler.output)
    {
      reassembler := new StreamReassembler(capacity);
      this.capacity := capacity;
      syn, fin, isn, rcvBase := false, false, 0, 0;
    }

    method SegmentReceived(seg: Segment)
      requires Valid() && reassembler.curIdx < TWO_63
      requires reassembler.curIdx + capacity + |seg.payload| < TWO_64
      modifies this, reassembler, reassembler.output
      ensures Valid() && Model() == R.SegmentReceived(old(Model()), seg)
    {
      if !seg.header.syn && !syn {
        return;
      } else if seg.header.syn {
        if syn {
          return;
        }
        syn := true;
        isn := seg.header.seqno;
      }
      if seg.header.fin {
        if fin {
          return;
        }
        fin := true;
      }
      Assemble(seg);
    }

    /** Lines 36-45: place the payload, then move the acknowledgement. */
    method Assemble(seg: Segment)
      requires Valid() && reassembler.curIdx < TWO_63
      requires reassembler.curIdx + capacity + |seg.payload| < TWO_64
      modifies this`rcvBase, reassembler, reassembler.output
      ensures Valid()
      ensures var n := old(Model());
              var p := n.(asm := A.Push(n.asm, seg.payload, R.StreamIndex(n, seg), seg.header.fin));
              Model() == p.(rcvBase := R.Base(p))
    {
      var absSeqno := if seg.header.syn then 1 else Unwrap(seg.header.seqno, isn, reassembler.curIdx);
      var streamIndex := (absSeqno - 1) % TWO_64;
      assert streamIndex == R.StreamIndex(Model(), seg);
      reassembler.PushSubstring(seg.payload, streamIndex, seg.header.fin);
      assert R.Base(Model()) == reassembler.curIdx + 1 + if reassembler.output.inputEnd && fin then 1 else 0;
      rcvBase := reassembler.curIdx + 1;
      if reassembler.output.inputEnd && fin {
        rcvBase := rcvBase + 1;
      }
    }

    method Ackno() returns (a: Option<u32>)
      requires Valid()
      ensures a == R.Ackno(Model())
    {
      a := if !syn then None else Some(Wrap(rcvBase % TWO_64, isn));
    }

    method WindowSize() returns (n: int)
      requires Valid()
      ensures n == R.WindowSize(Model())
    {
      var size := reassembler.output.BufferSize();
      n := capacity - size;
    }

    method Read(len: nat) returns (s: seq<byte>)
      requires Valid()
      modifies reassembler.output
      ensures Valid() && Model() == R.Read(old(Model()), len)
      ensures s == A.Output(Model().asm)[old(Model()).asm.popped..Model().asm.popped]
      ensures |s| == Min(len, A.Cur(old(Model()).asm) - old(Model()).asm.popped)
    {
      s := reassembler.Read(len);
    }
  }
}
