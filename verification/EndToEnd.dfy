/**
 * Two connections over a network that may lose, repeat and reorder: everything ever sent stays in a
 * set, and any member may arrive at any time, any number of times.
 */
module EndToEnd {
  import opened Numbers
  import opened TcpSegment
  import opened WrappingIntegers
  import opened Options
  import opened ConnectionModel
  import opened ConnectionInvariant
  import A = Assembly
  import R = ReceiverModel
  import S = SenderModel
  import I = SenderInvariant
  import P = SenderProperties

  datatype System = System(a: Connection, b: Connection, ab: set<Segment>, ba: set<Segment>)

  datatype Action = AtA(e: Event) | AtB(e: Event)

  function Swap(sys: System): System { System(sys.b, sys.a, sys.ba, sys.ab) }

  /** A call at endpoint a: arriving segments were sent by b at some time, and what a queues is sent. */
  ghost predicate ActsAtA(sys: System, e: Event, next: System) {
    && (e.Arrives? ==> e.seg in sys.ba)
    && Enabled(sys.a, e) && Ready(sys.a)
    && var c := Step(sys.a, e);
       next == System(Collect(c), sys.b, sys.ab + (set seg | seg in c.segmentsOut), sys.ba)
  }

  ghost predicate Acts(sys: System, act: Action, next: System) {
    match act
    case AtA(e) => ActsAtA(sys, e, next)
    case AtB(e) => ActsAtA(Swap(sys), e, Swap(next))
  }

  ghost predicate Starts(sys: System) {
    && sys.ab == {} && sys.ba == {}
    && (exists rc: nat, sc: nat, rto: u16, isn: u32 :: sys.a == Fresh(rc, sc, rto, isn))
    && (exists rc: nat, sc: nat, rto: u16, isn: u32 :: sys.b == Fresh(rc, sc, rto, isn))
  }

  ghost predicate IsRun(states: seq<System>, acts: seq<Action>) {
    && |states| == |acts| + 1 && Starts(states[0])
    && forall i {:trigger acts[i]} :: 0 <= i < |acts| ==> Acts(states[i], acts[i], states[i + 1])
  }

  /** The same run with the two sides' names exchanged. */
  function SwapAct(act: Action): Action {
    match act
    case AtA(e) => AtB(e)
    case AtB(e) => AtA(e)
  }

  function Swapped(states: seq<System>): seq<System> {
    seq(|states|, i requires 0 <= i < |states| => Swap(states[i]))
  }

  function SwappedActs(acts: seq<Action>): seq<Action> {
    seq(|acts|, i requires 0 <= i < |acts| => SwapAct(acts[i]))
  }

  lemma SwapOne(sys: System, act: Action, next: System)
    requires Acts(sys, act, next)
    ensures Acts(Swap(sys), SwapAct(act), Swap(next))
  {
    assert Swap(Swap(sys)) == sys && Swap(Swap(next)) == next;
  }

  /** What holds of one side in every run holds of the other. */
  lemma SwappedIsRun(states: seq<System>, acts: seq<Action>)
    requires IsRun(states, acts)
    ensures IsRun(Swapped(states), SwappedActs(acts))
  {
    var ss, aa := Swapped(states), SwappedActs(acts);
    forall i | 0 <= i < |aa|
      ensures Acts(ss[i], aa[i], ss[i + 1])
    {
      SwapOne(states[i], acts[i], states[i + 1]);
    }
  }

  // ---- One direction ----

  /** Every segment from the sender is a slice of its stream, and the other end holds only bytes of that stream. */
  ghost predicate Direction(from: S.Sender, net: set<Segment>, to: R.Receiver) {
    && (forall seg :: seg in net ==> I.Sent(seg, from.isn, from.stream))
    && R.Follows(to, from.isn, from.stream.written)
  }

  lemma SentEvolves(seg: Segment, s: S.Sender, t: S.Sender)
    requires I.Sent(seg, s.isn, s.stream) && P.Evolves(s, t)
    ensures I.Sent(seg, t.isn, t.stream)
  {
    var start :| SliceAt(seg, s.isn, s.stream.written, start);
    if s.stream.ended {
      assert SliceAt(seg, t.isn, t.stream.written, start);
    } else {
      var more := t.stream.written[|s.stream.written|..];
      assert t.stream.written == s.stream.written + more;
      I.SliceGrows(seg, s.isn, s.stream.written, start, more);
    }
  }

  /** The sender's end of a direction moves: what it sent before and what it sends now are all slices. */
  lemma SenderMoves(s: S.Sender, t: S.Sender, net: set<Segment>, out: seq<Segment>, to: R.Receiver)
    requires Direction(s, net, to) && P.Evolves(s, t) && AllSent(out, t)
    ensures Direction(t, net + (set seg | seg in out), to)
  {
    forall seg | seg in net
      ensures I.Sent(seg, t.isn, t.stream)
    {
      SentEvolves(seg, s, t);
    }
  }

  /** q is r, except for what the application has read and for the error flag. */
  ghost predicate SameHeld(r: R.Receiver, q: R.Receiver) {
    q == r.(asm := r.asm.(popped := q.asm.popped, error := q.asm.error)) && r.asm.popped <= q.asm.popped
  }

  /** SYN has been sent and nothing heard. */
  predicate Opening(c: Connection) { SynSent(c) && R.Ackno(c.receiver) == None }

  /** The segment gets as far as the exchange of lines 69-81. */
  predicate Exchanges(c: Connection, seg: Segment) {
    c.active && !Listening(c) && (Opening(c) ==> seg.payload == [] && seg.header.ack && !seg.header.rst)
  }

  /** The connection hands the segment on to its receiver. */
  predicate HandsOn(c: Connection, seg: Segment) {
    || Exchanges(c, seg)
    || (c.active && Listening(c) && seg.header.syn)
    || (c.active && !Listening(c) && Opening(c) && !seg.header.ack && seg.header.syn)
  }

  lemma FlushKeepsReceiver(c: Connection)
    ensures Flush(c).receiver == c.receiver
  {
  }

  lemma UncleanReceiver(c: Connection)
    requires c.sender.segmentsOut != []
    ensures SameHeld(c.receiver, UncleanShutdown(c).receiver)
  {
  }

  lemma ExchangeReceiver(c: Connection, seg: Segment)
    requires R.Representable(c.receiver) && c.sender.stream.Valid()
    ensures SameHeld(R.SegmentReceived(c.receiver, seg), Exchange(c, seg).receiver)
  {
    var d := Deliver(c, seg);
    if seg.header.rst {
      UncleanReceiver(QueueEmpty(d));
    } else {
      FlushKeepsReceiver(Answer(d, seg));
    }
  }

  lemma ArrivalAtReceiver(c: Connection, seg: Segment)
    requires Ready(c)
    ensures SameHeld(if HandsOn(c, seg) then R.SegmentReceived(c.receiver, seg) else c.receiver,
                     SegmentReceived(c, seg).receiver)
  {
    var d := c.(sinceLast := 0);
    if Listening(c) {
      FlushKeepsReceiver(d.(receiver := R.SegmentReceived(d.receiver, seg), sender := S.FillWindow(d.sender)));
    } else {
      ExchangeReceiver(d, seg);
    }
  }

  lemma FillKeepsReceiver(c: Connection)
    requires c.sender.stream.Valid()
    ensures FillAndFlush(c).receiver == c.receiver
  {
    FlushKeepsReceiver(c.(sender := S.FillWindow(c.sender)));
  }

  lemma TickKeepsReceiver(c: Connection, ms: nat)
    requires Ready(c)
    ensures SameHeld(c.receiver, Tick(c, ms).receiver)
  {
    if c.active {
      FlushKeepsReceiver(GiveUp(Elapse(c, ms)));
    }
  }

  /** A call changes the receiver only by the segment that it hands on, and by what the application reads. */
  lemma ReceiverAfter(c: Connection, e: Event)
    requires Ready(c)
    ensures SameHeld(if e.Arrives? && HandsOn(c, e.seg) then R.SegmentReceived(c.receiver, e.seg) else c.receiver,
                     Step(c, e).receiver)
  {
    match e
    case Arrives(seg) => ArrivalAtReceiver(c, seg);
    case Writes(data) => FillKeepsReceiver(c.(sender := c.sender.(stream := c.sender.stream.Write(data))));
    case Ticks(ms) => TickKeepsReceiver(c, ms);
    case Ends => FillKeepsReceiver(c.(sender := c.sender.(stream := c.sender.stream.EndInput())));
    case Connects => FillKeepsReceiver(c);
    case Reads(len) =>
  }

  lemma ReceiverMoves(from: S.Sender, net: set<Segment>, c: Connection, e: Event)
    requires Direction(from, net, c.receiver) && Ready(c) && |from.stream.written| < INT32_MAX - 2
    requires e.Arrives? ==> e.seg in net
    ensures Direction(from, net, Step(c, e).receiver)
  {
    ReceiverAfter(c, e);
    if e.Arrives? {
      var start :| SliceAt(e.seg, from.isn, from.stream.written, start);
      R.SliceKeepsFollowing(c.receiver, from.isn, from.stream.written, e.seg, start);
    }
  }

  // ---- Both directions, over runs ----

  ghost predicate SystemInv(sys: System) {
    && Inv(sys.a) && Inv(sys.b)
    && Direction(sys.a.sender, sys.ab, sys.b.receiver)
    && Direction(sys.b.sender, sys.ba, sys.a.receiver)
  }

  lemma CollectKeepsInv(c: Connection)
    requires Inv(c)
    ensures Inv(Collect(c))
  {
  }

  lemma ActKeepsInv(sys: System, e: Event, next: System)
    requires SystemInv(sys) && ActsAtA(sys, e, next)
    ensures SystemInv(next)
  {
    var c := Step(sys.a, e);
    StepKeepsInv(sys.a, e);
    CollectKeepsInv(c);
    SenderMoves(sys.a.sender, c.sender, sys.ab, c.segmentsOut, sys.b.receiver);
    ReceiverMoves(sys.b.sender, sys.ba, sys.a, e);
  }

  lemma NothingFollows(from: Connection, rc: nat, sc: nat, rto: u16, isn: u32)
    requires from.sender.stream.written == []
    ensures Direction(from.sender, {}, Fresh(rc, sc, rto, isn).receiver)
  {
  }

  lemma StartInv(sys: System)
    requires Starts(sys)
    ensures SystemInv(sys)
  {
    var rc: nat, sc: nat, rto: u16, isn: u32 :| sys.a == Fresh(rc, sc, rto, isn);
    FreshInv(rc, sc, rto, isn);
    var rc': nat, sc': nat, rto': u16, isn': u32 :| sys.b == Fresh(rc', sc', rto', isn');
    FreshInv(rc', sc', rto', isn');
    NothingFollows(sys.a, rc', sc', rto', isn');
    NothingFollows(sys.b, rc, sc, rto, isn);
  }

  lemma {:induction false} RunKeepsInv(states: seq<System>, acts: seq<Action>, i: nat)
    requires IsRun(states, acts) && i < |states|
    ensures SystemInv(states[i])
  {
    if i == 0 {
      StartInv(states[0]);
    } else {
      RunKeepsInv(states, acts, i - 1);
      match acts[i - 1] {
        case AtA(e) => ActKeepsInv(states[i - 1], e, states[i]);
        case AtB(e) => ActKeepsInv(Swap(states[i - 1]), e, Swap(states[i]));
      }
    }
  }

  /**
   * End-to-end safety: in every state of every run, what each side has put into its inbound stream is
   * a prefix of what the other side's application has written to its outbound stream.
   */
  lemma DeliveredIsPrefix(states: seq<System>, acts: seq<Action>, i: nat)
    requires IsRun(states, acts) && i < |states|
    ensures A.Output(states[i].b.receiver.asm) <= states[i].a.sender.stream.written
    ensures A.Output(states[i].a.receiver.asm) <= states[i].b.sender.stream.written
  {
    RunKeepsInv(states, acts, i);
    A.CarriesGivesPrefix(states[i].b.receiver.asm, states[i].a.sender.stream.written);
    A.CarriesGivesPrefix(states[i].a.receiver.asm, states[i].b.sender.stream.written);
  }

  /** The segment carries the symbols of SYN, stream, FIN from start, where its own sequence number points. */
  ghost predicate CarriesFrom(seg: Segment, from: S.Sender, start: nat) {
    && start < TWO_64 && start + seg.Length() <= |from.stream.written| + 2
    && seg.header.seqno == Wrap(start, from.isn)
    && Carried(seg) == SequenceSpace(from.stream.written)[start..start + seg.Length()]
  }

  lemma SentCarries(seg: Segment, from: S.Sender) returns (start: nat)
    requires I.Sent(seg, from.isn, from.stream)
    ensures CarriesFrom(seg, from, start)
  {
    start :| SliceAt(seg, from.isn, from.stream.written, start);
    SliceCarries(seg, from.isn, from.stream.written, start);
  }

  /**
   * Every segment that either side ever sent, at any time and for whatever reason, carries the symbols of SYN, stream,
   * FIN that its own sequence number points at, with at most one full payload, and FIN only if the stream is ended.
   */
  lemma WireCarriesSlices(states: seq<System>, acts: seq<Action>, i: nat, seg: Segment) returns (start: nat)
    requires IsRun(states, acts) && i < |states| && (seg in states[i].ab || seg in states[i].ba)
    ensures var from := if seg in states[i].ab then states[i].a.sender else states[i].b.sender;
            && CarriesFrom(seg, from, start)
            && |seg.payload| <= S.MAX_PAYLOAD_SIZE && (seg.header.fin ==> from.stream.ended)
  {
    RunKeepsInv(states, acts, i);
    start := SentCarries(seg, if seg in states[i].ab then states[i].a.sender else states[i].b.sender);
  }

  /** Every call that the applications may make, and every arrival, finds both endpoints ready for it. */
  lemma AlwaysReady(states: seq<System>, acts: seq<Action>, i: nat)
    requires IsRun(states, acts) && i < |states|
    ensures Ready(states[i].a) && Ready(states[i].b)
  {
    RunKeepsInv(states, acts, i);
    R.FollowsIsRepresentable(states[i].b.receiver, states[i].a.sender.isn, states[i].a.sender.stream.written);
    R.FollowsIsRepresentable(states[i].a.receiver, states[i].b.sender.isn, states[i].b.sender.stream.written);
    InvIsReady(states[i].a);
    InvIsReady(states[i].b);
  }
}
