/** Whole runs of a sender on its own, under arbitrary acknowledgements (tcp_sender.cc). */
module SenderRuns {
  import opened Numbers
  import opened WrappingIntegers
  import opened TcpSegment
  import opened ByteStream
  import opened SenderModel
  import opened SenderInvariant
  import opened SenderProperties

  datatype Op =
    | Fills
    | Acks(ackno: u32, win: u16)
    | Ticks(ms: nat)
    | Probes
    | Writes(data: seq<byte>)
    | Ends
    | Collects

  /** The application writes nothing after the end, and the stream stays below INT32_MAX - 2 bytes. */
  ghost predicate Allowed(s: Sender, op: Op) {
    && s.stream.Valid() && (s.timerRunning ==> s.outstanding != [])
    && (op.Writes? ==> !s.stream.ended && |s.stream.Write(op.data).written| < INT32_MAX - 2)
  }

  function Step(s: Sender, op: Op): Sender
    requires s.stream.Valid() && (s.timerRunning ==> s.outstanding != [])
  {
    match op
    case Fills => FillWindow(s)
    case Acks(ackno, win) => AckReceived(s, ackno, win)
    case Ticks(ms) => Tick(s, ms)
    case Probes => SendEmpty(s)
    case Writes(data) => s.(stream := s.stream.Write(data))
    case Ends => s.(stream := s.stream.EndInput())
    case Collects => s.(segmentsOut := [])
  }

  /** The window that the last accepted acknowledgement advertised. */
  function Advertised(s: Sender, op: Op, adv: u16): u16 {
    if op.Acks? && Unwrap(op.ackno, s.isn, s.rcvBase) <= s.nextSeqno then op.win else adv
  }

  ghost predicate Moves(s: Sender, adv: u16, op: Op, t: Sender, next: u16) {
    Allowed(s, op) && t == Step(s, op) && next == Advertised(s, op, adv)
  }

  /** A run from a new sender; advs[i] is the advertisement in force in states[i]. */
  ghost predicate IsRun(states: seq<Sender>, advs: seq<u16>, ops: seq<Op>) {
    && |states| == |ops| + 1 == |advs|
    && (exists capacity: nat, rto: u16, isn: u32 :: states[0] == Fresh(capacity, rto, isn)) && advs[0] == 1
    && forall i {:trigger ops[i]} :: 0 <= i < |ops| ==> Moves(states[i], advs[i], ops[i], states[i + 1], advs[i + 1])
  }

  lemma StepKeepsInv(s: Sender, op: Op)
    requires Inv(s) && Allowed(s, op)
    ensures Inv(Step(s, op))
  {
    match op
    case Fills => FillWindowKeepsInv(s);
    case Acks(ackno, win) => AckReceivedKeepsInv(s, ackno, win);
    case Ticks(ms) => TickKeepsInv(s, ms);
    case Probes => SendEmptyKeepsInv(s);
    case Writes(data) => WriteKeepsInv(s, data);
    case Ends => EndInputKeepsInv(s);
    case Collects =>
  }

  lemma {:induction false} RunInv(states: seq<Sender>, advs: seq<u16>, ops: seq<Op>, i: nat)
    requires IsRun(states, advs, ops) && i < |states|
    ensures Inv(states[i])
  {
    if i == 0 {
      var capacity: nat, rto: u16, isn: u32 :| states[0] == Fresh(capacity, rto, isn);
      FreshInv(capacity, rto, isn);
    } else {
      RunInv(states, advs, ops, i - 1);
      StepKeepsInv(states[i - 1], ops[i - 1]);
    }
  }

  /**
   * In-flight tiling, in every state of every run, whatever is acknowledged: the k-th outstanding segment is
   * the non-empty slice of SYN, stream, FIN that starts where the ones before it end; together they cover
   * exactly the bytes in flight, up to the next sequence number; and the last accepted acknowledgement lies in
   * the first of them, or at the next sequence number if there is none. The timer runs exactly while there is one.
   */
  lemma InFlightTiles(states: seq<Sender>, advs: seq<u16>, ops: seq<Op>, i: nat, k: nat)
    requires IsRun(states, advs, ops) && i < |states|
    ensures var s := states[i];
            && s.bytesInFlight == Total(s.outstanding) && Front(s) >= 0
            && s.nextSeqno == (if s.synSent then 1 else 0) + s.stream.read + (if s.finSent then 1 else 0)
            && (k < |s.outstanding| ==>
                  && s.outstanding[k].Length() > 0
                  && SliceAt(s.outstanding[k], s.isn, s.stream.written, Front(s) + Total(s.outstanding[..k])))
            && (s.outstanding != [] ==> Front(s) <= s.rcvBase < Front(s) + s.outstanding[0].Length())
            && (s.outstanding == [] ==> s.rcvBase == s.nextSeqno)
            && (s.timerRunning <==> s.outstanding != [])
  {
    RunInv(states, advs, ops, i);
    var s := states[i];
    if k < |s.outstanding| {
      TileAt(s.outstanding, s.isn, s.stream.written, Front(s), k);
    }
  }

  /** No acknowledgement of the run moves its number or its right edge to the left. */
  ghost predicate Forward(states: seq<Sender>, advs: seq<u16>, ops: seq<Op>)
    requires |states| == |ops| + 1 == |advs|
  {
    forall i {:trigger ops[i]} :: 0 <= i < |ops| && ops[i].Acks? ==>
      NotBackwards(states[i], advs[i], ops[i].ackno, ops[i].win)
  }

  lemma StepObeys(s: Sender, op: Op, adv: u16)
    requires Inv(s) && Allowed(s, op) && Obeys(s, adv)
    requires op.Acks? ==> NotBackwards(s, adv, op.ackno, op.win)
    ensures Obeys(Step(s, op), Advertised(s, op, adv))
  {
    match op
    case Fills => FillWindowObeys(s, adv);
    case Acks(ackno, win) => AckReceivedObeys(s, adv, ackno, win);
    case Ticks(_) =>
    case Probes =>
    case Writes(_) =>
    case Ends =>
    case Collects =>
  }

  lemma {:induction false} RunObeys(states: seq<Sender>, advs: seq<u16>, ops: seq<Op>, i: nat)
    requires IsRun(states, advs, ops) && Forward(states, advs, ops) && i < |states|
    ensures Obeys(states[i], advs[i])
  {
    if i > 0 {
      RunObeys(states, advs, ops, i - 1);
      RunInv(states, advs, ops, i - 1);
      StepObeys(states[i - 1], ops[i - 1], advs[i - 1]);
    }
  }

  /**
   * Window respect over whole runs in which acknowledgements do not move backwards: the sender never passes
   * the acknowledged number plus the advertised window (a zero window counting as one), except by one for
   * FIN; until FIN is sent the unsigned difference used as free space is exact; and fill_window, called once
   * the SYN is acknowledged, leaves the window full, FIN sent, or the stream empty and not ended.
   */
  lemma WindowIsRespected(states: seq<Sender>, advs: seq<u16>, ops: seq<Op>, i: nat)
    requires IsRun(states, advs, ops) && Forward(states, advs, ops) && i < |states|
    ensures var s, edge := states[i], states[i].rcvBase + Max(1, advs[i]);
            && s.stream.Valid() && s.nextSeqno <= edge + (if s.finSent then 1 else 0)
            && (!s.finSent ==> Free(Widened(s), Edge(Widened(s))) == edge - s.nextSeqno)
            && (s.synSent && !WaitingForSyn(s) && !s.finSent ==> Saturated(FillWindow(s), edge))
  {
    RunInv(states, advs, ops, i);
    RunObeys(states, advs, ops, i);
    FreeIsExactIff(states[i]);
    if ReadyToSend(states[i]) {
      FillWindowFills(states[i]);
    }
  }

  /** In such a run, every acknowledgement of new data leaves the window it opens full, FIN sent, or nothing to send. */
  lemma AcksFillWindow(states: seq<Sender>, advs: seq<u16>, ops: seq<Op>, i: nat)
    requires IsRun(states, advs, ops) && Forward(states, advs, ops) && i < |ops|
    requires ops[i].Acks? && NewlyAcks(states[i], ops[i].ackno)
    ensures Saturated(states[i + 1], states[i + 1].rcvBase + Max(1, ops[i].win))
  {
    RunInv(states, advs, ops, i);
    RunObeys(states, advs, ops, i);
    AckReceivedFills(states[i], ops[i].ackno, ops[i].win);
  }

  // ---- A window that shrinks ----

  ghost predicate Reachable(s: Sender, adv: u16) {
    exists states: seq<Sender>, advs: seq<u16>, ops: seq<Op> ::
      IsRun(states, advs, ops) && states[|ops|] == s && advs[|ops|] == adv
  }

  lemma ReachStart(capacity: nat, rto: u16, isn: u32)
    ensures Reachable(Fresh(capacity, rto, isn), 1)
  {
    assert IsRun([Fresh(capacity, rto, isn)], [1], []);
  }

  lemma RunExtends(states: seq<Sender>, advs: seq<u16>, ops: seq<Op>, op: Op, t: Sender, next: u16)
    requires IsRun(states, advs, ops) && Moves(states[|ops|], advs[|ops|], op, t, next)
    ensures IsRun(states + [t], advs + [next], ops + [op])
  {
    var ss, aa, all := states + [t], advs + [next], ops + [op];
    forall i | 0 <= i < |all|
      ensures Moves(ss[i], aa[i], all[i], ss[i + 1], aa[i + 1])
    {
      if i < |ops| {
        assert ss[i] == states[i] && ss[i + 1] == states[i + 1] && all[i] == ops[i];
      }
    }
  }

  lemma Reach(s: Sender, adv: u16, op: Op, t: Sender, next: u16)
    requires Reachable(s, adv) && Allowed(s, op) && t == Step(s, op) && next == Advertised(s, op, adv)
    ensures Reachable(t, next)
  {
    var states: seq<Sender>, advs: seq<u16>, ops: seq<Op> :|
      IsRun(states, advs, ops) && states[|ops|] == s && advs[|ops|] == adv;
    RunExtends(states, advs, ops, op, t, next);
    assert (states + [t])[|ops + [op]|] == t && (advs + [next])[|ops + [op]|] == next;
  }

  lemma ReachableIsInv(s: Sender, adv: u16)
    requires Reachable(s, adv)
    ensures Inv(s)
  {
    var states: seq<Sender>, advs: seq<u16>, ops: seq<Op> :|
      IsRun(states, advs, ops) && states[|ops|] == s && advs[|ops|] == adv;
    RunInv(states, advs, ops, |ops|);
  }

  /** A sender with ISN 0 that has sent SYN and what it has read of its stream. */
  function Sample(stream: Stream, base: u32, window: u32, outstanding: seq<Segment>, out: seq<Segment>): Sender {
    Sender(0, 1000, stream, (stream.read + 1) % TWO_64, base, window, outstanding, (stream.read + 1 - base) % TWO_64,
           out, 1000, 0, 0, outstanding != [], true, true, false)
  }

  const SYN := SYN_SEGMENT.At(0)
  const DATA := DataSegment([1, 2], false).At(1)

  /** Two bytes written, and read times of them sent. */
  function Two(read: nat): Stream { Stream([1, 2], read, 10, false, false) }

  lemma SampleSyn()
    ensures FillWindow(Fresh(10, 1000, 0)) == Sample(Empty(10), 0, 1, [SYN], [SYN])
  {
  }

  lemma SampleOpen()
    ensures AckReceived(Sample(Empty(10), 0, 1, [SYN], [SYN]), 1, 2) == Sample(Empty(10), 1, 2, [], [SYN])
    ensures Unwrap(1, 0, 0) == 1
  {
    var s := Sample(Empty(10), 0, 1, [SYN], [SYN]);
    assert Unwrap(1, 0, 0) == 1 && Unwrap(0, 0, 1) == 0;
    var w := s.(window := 2, backOff := true, rcvBase := 1);
    assert EndOfFront(w) == 1;
    assert DropFront(w).outstanding == [];
    assert DropAcked(w, 1) == DropFront(w);
  }

  lemma SampleData()
    ensures FillWindow(Sample(Two(0), 1, 2, [], [SYN])) == Sample(Two(2), 1, 2, [DATA], [SYN, DATA])
  {
    var s, t := Sample(Two(0), 1, 2, [], [SYN]), Sample(Two(2), 1, 2, [DATA], [SYN, DATA]);
    assert s.stream.Peek(2) == [1, 2];
    assert SendData(s, 2) == t;
    assert Edge(s) == 3 && Free(s, 3) == 2 && Free(t, 3) == 0;
    assert SendAll(t, 3) == t;
    assert SendAll(s, 3) == t;
  }

  lemma ReachOpen()
    ensures Reachable(Sample(Empty(10), 1, 2, [], [SYN]), 2)
  {
    ReachStart(10, 1000, 0);
    SampleSyn();
    Reach(Fresh(10, 1000, 0), 1, Fills, Sample(Empty(10), 0, 1, [SYN], [SYN]), 1);
    SampleOpen();
    Reach(Sample(Empty(10), 0, 1, [SYN], [SYN]), 1, Acks(1, 2), Sample(Empty(10), 1, 2, [], [SYN]), 2);
  }

  lemma ReachData()
    ensures Reachable(Sample(Two(2), 1, 2, [DATA], [SYN, DATA]), 2)
  {
    ReachOpen();
    assert Empty(10).Write([1, 2]) == Two(0);
    Reach(Sample(Empty(10), 1, 2, [], [SYN]), 2, Writes([1, 2]), Sample(Two(0), 1, 2, [], [SYN]), 2);
    SampleData();
    Reach(Sample(Two(0), 1, 2, [], [SYN]), 2, Fills, Sample(Two(2), 1, 2, [DATA], [SYN, DATA]), 2);
  }

  /** The same number is acknowledged again, with a window of one, and a third byte is written. */
  function Shrunk(): Sender { Sample(Stream([1, 2, 3], 2, 10, false, false), 1, 1, [DATA], [SYN, DATA]) }

  lemma ReachShrunk()
    ensures Reachable(Shrunk(), 1)
  {
    var s, t := Sample(Two(2), 1, 2, [DATA], [SYN, DATA]), Sample(Two(2), 1, 1, [DATA], [SYN, DATA]);
    ReachData();
    assert Unwrap(1, 0, 1) == 1;
    Reach(s, 2, Acks(1, 1), t, 1);
    assert Two(2).Write([3]) == Stream([1, 2, 3], 2, 10, false, false);
    Reach(t, 1, Writes([3]), Shrunk(), 1);
  }

  /** In a state that a run reaches, fill_window sends a third byte although the window ends before the second. */
  lemma ShrunkWindowIsOverrun() returns (t: Sender)
    ensures Reachable(Shrunk(), 1) && Reachable(t, 1) && Shrunk().stream.Valid() && t == FillWindow(Shrunk())
    ensures Shrunk().rcvBase + 1 == 2 && Shrunk().nextSeqno == 3 < t.nextSeqno
  {
    ReachShrunk();
    ReachableIsInv(Shrunk(), 1);
    t := FillWindow(Shrunk());
    Reach(Shrunk(), 1, Fills, t, 1);
    StaysInWindowIff(Shrunk());
  }

  // ---- FIN beyond the window ----

  const ONE := DataSegment([1], false).At(1)

  lemma SampleOne()
    ensures FillWindow(Sample(Stream([1], 0, 10, false, false), 1, 2, [], [SYN]))
            == Sample(Stream([1], 1, 10, false, false), 1, 2, [ONE], [SYN, ONE])
  {
    var s := Sample(Stream([1], 0, 10, false, false), 1, 2, [], [SYN]);
    var t := Sample(Stream([1], 1, 10, false, false), 1, 2, [ONE], [SYN, ONE]);
    assert s.stream.Peek(2) == [1];
    assert SendData(s, 2) == t;
    assert Edge(s) == 3 && Free(s, 3) == 2;
    assert SendAll(t, 3) == t;
    assert SendAll(s, 3) == t;
  }

  lemma ReachOne()
    ensures Reachable(Sample(Stream([1], 1, 10, false, false), 1, 2, [ONE], [SYN, ONE]), 2)
  {
    ReachOpen();
    var s := Sample(Stream([1], 0, 10, false, false), 1, 2, [], [SYN]);
    assert Empty(10).Write([1]) == s.stream;
    Reach(Sample(Empty(10), 1, 2, [], [SYN]), 2, Writes([1]), s, 2);
    SampleOne();
    Reach(s, 2, Fills, Sample(Stream([1], 1, 10, false, false), 1, 2, [ONE], [SYN, ONE]), 2);
  }

  /** A window of two, one byte in flight, and a last byte to send. */
  function LastByte(): Sender { Sample(Stream([1, 2], 1, 10, true, false), 1, 2, [ONE], [SYN, ONE]) }

  lemma ReachLastByte()
    ensures Reachable(LastByte(), 2)
  {
    ReachOne();
    var s := Sample(Stream([1], 1, 10, false, false), 1, 2, [ONE], [SYN, ONE]);
    var t := Sample(Stream([1, 2], 1, 10, false, false), 1, 2, [ONE], [SYN, ONE]);
    assert s.stream.Write([2]) == t.stream;
    Reach(s, 2, Writes([2]), t, 2);
    Reach(t, 2, Ends, LastByte(), 2);
  }

  /** In a state that a run reaches, and with the window kept to so far, fill_window sends FIN one beyond it. */
  lemma FinIsSentBeyondWindow() returns (t: Sender)
    ensures Reachable(LastByte(), 2) && Reachable(t, 2) && LastByte().stream.Valid() && t == FillWindow(LastByte())
    ensures LastByte().nextSeqno == 2 < LastByte().rcvBase + 2 == 3 < t.nextSeqno
  {
    ReachLastByte();
    ReachableIsInv(LastByte(), 2);
    t := FillWindow(LastByte());
    Reach(LastByte(), 2, Fills, t, 2);
    FinSpillsIff(LastByte());
  }
}
