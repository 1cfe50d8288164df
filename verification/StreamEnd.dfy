/** When an inbound stream is finished, in runs of two connections (tcp_receiver.cc, stream_reassembler.cc). */
module StreamEnd {
  import opened Numbers
  import opened TcpSegment
  import opened ByteStream
  import opened ConnectionModel
  import opened ConnectionInvariant
  import opened EndToEnd
  import A = Assembly
  import R = ReceiverModel
  import S = SenderModel

  /** The stream is finished at the receiving end exactly when all of it is there and FIN has arrived. */
  ghost predicate Complete(from: Stream, to: R.Receiver) {
    to.asm.ended <==> to.fin && from.ended && A.Output(to.asm) == from.written
  }

  ghost predicate BothComplete(sys: System) {
    Complete(sys.a.sender.stream, sys.b.receiver) && Complete(sys.b.sender.stream, sys.a.receiver)
  }

  /** If the connection hands on a FIN, it is one that does not end the stream too early. */
  ghost predicate InOrderAt(c: Connection, e: Event) {
    R.Representable(c.receiver) && e.Arrives? && HandsOn(c, e.seg) ==> R.FinInOrder(c.receiver, e.seg)
  }

  ghost predicate InOrder(sys: System, act: Action) {
    match act
    case AtA(e) => InOrderAt(sys.a, e)
    case AtB(e) => InOrderAt(sys.b, e)
  }

  /** No FIN handed on in the run ends its stream too early. */
  ghost predicate FinsInOrder(states: seq<System>, acts: seq<Action>)
    requires |states| == |acts| + 1
  {
    forall k {:trigger acts[k]} :: 0 <= k < |acts| ==> InOrder(states[k], acts[k])
  }

  // ---- The end mark, in every run ----

  /** FIN is taken only of an ended stream, and puts the end mark where that stream ends. */
  ghost predicate Marked(from: S.Sender, to: R.Receiver) {
    R.MarkRight(to, from.stream.written) && (to.fin ==> from.stream.ended)
  }

  ghost predicate SystemMarked(sys: System) {
    Marked(sys.a.sender, sys.b.receiver) && Marked(sys.b.sender, sys.a.receiver)
  }

  lemma ReceiverKeepsMark(from: S.Sender, net: set<Segment>, c: Connection, e: Event)
    requires Direction(from, net, c.receiver) && Ready(c) && |from.stream.written| < INT32_MAX - 2
    requires Marked(from, c.receiver) && (e.Arrives? ==> e.seg in net)
    ensures Marked(from, Step(c, e).receiver)
  {
    ReceiverAfter(c, e);
    if e.Arrives? {
      var start :| SliceAt(e.seg, from.isn, from.stream.written, start);
      R.SliceKeepsMark(c.receiver, from.isn, from.stream.written, e.seg, start);
    }
  }

  lemma ActKeepsMark(sys: System, e: Event, next: System)
    requires SystemInv(sys) && SystemMarked(sys) && ActsAtA(sys, e, next)
    ensures SystemMarked(next)
  {
    StepKeepsInv(sys.a, e);
    ReceiverKeepsMark(sys.b.sender, sys.ba, sys.a, e);
  }

  lemma StartMarked(states: seq<System>, acts: seq<Action>)
    requires IsRun(states, acts)
    ensures SystemMarked(states[0])
  {
  }

  lemma StepKeepsMark(states: seq<System>, acts: seq<Action>, i: nat)
    requires IsRun(states, acts) && i < |acts| && SystemMarked(states[i])
    ensures SystemMarked(states[i + 1])
  {
    RunKeepsInv(states, acts, i);
    match acts[i]
    case AtA(e) => ActKeepsMark(states[i], e, states[i + 1]);
    case AtB(e) => ActKeepsMark(Swap(states[i]), e, Swap(states[i + 1]));
  }

  lemma {:induction false} RunKeepsMark(states: seq<System>, acts: seq<Action>, i: nat)
    requires IsRun(states, acts) && i < |states|
    ensures SystemMarked(states[i])
  {
    if i == 0 {
      StartMarked(states, acts);
    } else {
      RunKeepsMark(states, acts, i - 1);
      StepKeepsMark(states, acts, i - 1);
    }
  }

  // ---- The end itself ----

  ghost predicate EndRight(from: S.Sender, to: R.Receiver) {
    A.EndExact(to.asm, |from.stream.written|, to.fin) && (to.fin ==> from.stream.ended)
  }

  ghost predicate SystemEnd(sys: System) {
    EndRight(sys.a.sender, sys.b.receiver) && EndRight(sys.b.sender, sys.a.receiver)
  }

  /** With the mark in place, an exact end is the same as a complete stream. */
  lemma CompleteIsExact(from: S.Sender, to: R.Receiver)
    requires Marked(from, to) && A.Carries(to.asm, from.stream.written)
    ensures EndRight(from, to) <==> Complete(from.stream, to)
  {
    A.CarriesGivesPrefix(to.asm, from.stream.written);
  }

  lemma SystemCompleteIsExact(states: seq<System>, acts: seq<Action>, i: nat)
    requires IsRun(states, acts) && i < |states|
    ensures SystemEnd(states[i]) <==> BothComplete(states[i])
  {
    RunKeepsInv(states, acts, i);
    RunKeepsMark(states, acts, i);
    CompleteIsExact(states[i].a.sender, states[i].b.receiver);
    CompleteIsExact(states[i].b.sender, states[i].a.receiver);
  }

  lemma ReceiverKeepsEndIff(from: S.Sender, net: set<Segment>, c: Connection, e: Event)
    requires Direction(from, net, c.receiver) && Ready(c) && |from.stream.written| < INT32_MAX - 2
    requires EndRight(from, c.receiver) && Marked(from, Step(c, e).receiver) && (e.Arrives? ==> e.seg in net)
    ensures EndRight(from, Step(c, e).receiver) <==> InOrderAt(c, e)
  {
    ReceiverAfter(c, e);
    if e.Arrives? {
      var start :| SliceAt(e.seg, from.isn, from.stream.written, start);
      R.SliceKeepsEndExactIff(c.receiver, from.isn, from.stream.written, e.seg, start);
    }
  }

  lemma ActKeepsEndIff(sys: System, e: Event, next: System)
    requires SystemInv(sys) && SystemEnd(sys) && ActsAtA(sys, e, next) && SystemMarked(next)
    ensures SystemEnd(next) <==> InOrderAt(sys.a, e)
  {
    StepKeepsInv(sys.a, e);
    ReceiverKeepsEndIff(sys.b.sender, sys.ba, sys.a, e);
  }

  lemma StepKeepsEndIff(states: seq<System>, acts: seq<Action>, i: nat)
    requires IsRun(states, acts) && i < |acts| && SystemEnd(states[i])
    ensures SystemEnd(states[i + 1]) <==> InOrder(states[i], acts[i])
  {
    RunKeepsInv(states, acts, i);
    RunKeepsMark(states, acts, i + 1);
    match acts[i]
    case AtA(e) => ActKeepsEndIff(states[i], e, states[i + 1]);
    case AtB(e) => ActKeepsEndIff(Swap(states[i]), e, Swap(states[i + 1]));
  }

  lemma StartsExact(states: seq<System>, acts: seq<Action>)
    requires IsRun(states, acts)
    ensures SystemEnd(states[0])
  {
  }

  lemma {:induction false} RunKeepsEnd(states: seq<System>, acts: seq<Action>, i: nat)
    requires IsRun(states, acts) && i < |states|
    requires FinsInOrder(states, acts)
    ensures SystemEnd(states[i])
  {
    if i == 0 {
      StartsExact(states, acts);
    } else {
      RunKeepsEnd(states, acts, i - 1);
      StepKeepsEndIff(states, acts, i - 1);
    }
  }

  lemma CompleteGivesOrder(states: seq<System>, acts: seq<Action>, k: nat)
    requires IsRun(states, acts) && k < |acts| && BothComplete(states[k]) && BothComplete(states[k + 1])
    ensures InOrder(states[k], acts[k])
  {
    SystemCompleteIsExact(states, acts, k);
    SystemCompleteIsExact(states, acts, k + 1);
    StepKeepsEndIff(states, acts, k);
  }

  lemma OrderGivesComplete(states: seq<System>, acts: seq<Action>, i: nat)
    requires IsRun(states, acts) && i < |states| && FinsInOrder(states, acts)
    ensures BothComplete(states[i])
  {
    RunKeepsEnd(states, acts, i);
    SystemCompleteIsExact(states, acts, i);
  }

  /** Complete in every state of the run. */
  ghost predicate AlwaysComplete(states: seq<System>) {
    forall i :: 0 <= i < |states| ==> BothComplete(states[i])
  }

  /**
   * In every state of a run each inbound stream is ended exactly when the peer's FIN has arrived and every byte
   * the peer ever wrote has been delivered, if and only if no FIN that was handed on ended its stream too early.
   */
  lemma EndedMeansCompleteIff(states: seq<System>, acts: seq<Action>)
    requires IsRun(states, acts)
    ensures AlwaysComplete(states) <==> FinsInOrder(states, acts)
  {
    if AlwaysComplete(states) {
      forall k | 0 <= k < |acts|
        ensures InOrder(states[k], acts[k])
      {
        CompleteGivesOrder(states, acts, k);
      }
    }
    if FinsInOrder(states, acts) {
      forall i | 0 <= i < |states|
        ensures BothComplete(states[i])
      {
        OrderGivesComplete(states, acts, i);
      }
    }
  }

  /** A FIN overtakes the data before it: both segments are slices of the stream, yet the output ends empty. */
  lemma FinOvertakesData(s: seq<byte>, isn: u32, capacity: nat)
    requires 0 < |s| <= capacity && |s| < INT32_MAX - 2
    ensures var syn, fin := SYN_SEGMENT.At(isn), DataSegment([], true).At((|s| + 1 + isn) % TWO_32);
            && SliceAt(syn, isn, s, 0) && SliceAt(fin, isn, s, |s| + 1)
            && R.Representable(R.Fresh(capacity))
            && var r := R.SegmentReceived(R.Fresh(capacity), syn);
               && R.Representable(r)
               && var t := R.SegmentReceived(r, fin);
                  t.asm.ended && A.Output(t.asm) == []
  {
    var syn, fin := SYN_SEGMENT.At(isn), DataSegment([], true).At((|s| + 1 + isn) % TWO_32);
    assert SliceAt(syn, isn, s, 0) && SliceAt(fin, isn, s, |s| + 1);
    var r := R.SegmentReceived(R.Fresh(capacity), syn);
    assert r.asm == A.Push(A.Empty(capacity), [], 0, false) == A.Empty(capacity);
    assert R.Follows(r, isn, s);
    R.SliceIndex(r, isn, s, fin, |s| + 1);
    assert R.StreamIndex(R.Noted(r, fin), fin) == |s|;
    var b := A.Push(r.asm, [], |s|, true);
    A.PushAccepts(r.asm, [], |s|, true);
    assert b.held.Keys == {};
  }
}
