/** Flow control between two connections: the sender against the window of the receiver at the other end. */
module FlowControl {
  import opened Numbers
  import opened WrappingIntegers
  import opened TcpSegment
  import opened ConnectionModel
  import opened ConnectionInvariant
  import opened EndToEnd
  import opened Acknowledgements
  import R = ReceiverModel
  import S = SenderModel
  import I = SenderInvariant
  import P = SenderProperties

  /** The window that the last acknowledgement taken at c advertised. */
  function Advertised(c: Connection, e: Event, adv: u16): u16 {
    if && e.Arrives? && Exchanges(c, e.seg)
       && Unwrap(e.seg.header.ackno, c.sender.isn, c.sender.rcvBase) <= c.sender.nextSeqno
    then e.seg.header.win
    else adv
  }

  /** advs[i] is the advertisement in force at a in states[i]. */
  ghost predicate Advertises(states: seq<System>, acts: seq<Action>, advs: seq<u16>) {
    && |states| == |acts| + 1 == |advs| && advs[0] == 1
    && forall i {:trigger acts[i]} :: 0 <= i < |acts| ==>
         advs[i + 1] == if acts[i].AtA? then Advertised(states[i].a, acts[i].e, advs[i]) else advs[i]
  }

  /** No acknowledgement taken at a moves its number or its right edge to the left. */
  ghost predicate Forward(states: seq<System>, acts: seq<Action>, advs: seq<u16>)
    requires |states| == |acts| + 1 == |advs|
  {
    forall i {:trigger acts[i]} :: 0 <= i < |acts| && acts[i].AtA? ==> ForwardAt(states[i].a, acts[i].e, advs[i])
  }

  ghost predicate ForwardAt(c: Connection, e: Event, adv: u16) {
    e.Arrives? && Exchanges(c, e.seg) ==> P.NotBackwards(c.sender, adv, e.seg.header.ackno, e.seg.header.win)
  }

  /** The sender keeps to adv, and adv ends inside the peer's window; or adv is the least a sender may assume. */
  ghost predicate Controlled(s: S.Sender, adv: u16, peer: R.Receiver) {
    P.Obeys(s, adv) && (adv <= 1 || (peer.syn && s.rcvBase + adv <= R.RightEdge(peer)))
  }

  /** Flushing, failing and resetting leave the sender's position and window alone. */
  ghost predicate SamePosition(s: S.Sender, t: S.Sender) {
    && t.nextSeqno == s.nextSeqno && t.rcvBase == s.rcvBase && t.window == s.window && t.finSent == s.finSent
  }

  lemma FlushKeepsPosition(c: Connection)
    ensures SamePosition(c.sender, Flush(c).sender)
  {
  }

  lemma SameObeys(s: S.Sender, t: S.Sender, adv: u16)
    requires P.Obeys(s, adv) && SamePosition(s, t)
    ensures P.Obeys(t, adv)
  {
  }

  lemma FillObeys(c: Connection, adv: u16)
    requires I.Inv(c.sender) && P.Obeys(c.sender, adv)
    ensures P.Obeys(FillAndFlush(c).sender, adv)
  {
    P.FillWindowObeys(c.sender, adv);
    FlushKeepsPosition(c.(sender := S.FillWindow(c.sender)));
  }

  lemma ExchangeObeys(c: Connection, seg: Segment, adv: u16)
    requires R.Representable(c.receiver) && I.Inv(c.sender) && P.Obeys(c.sender, adv)
    requires P.NotBackwards(c.sender, adv, seg.header.ackno, seg.header.win)
    ensures P.Obeys(Exchange(c, seg).sender,
                    if Unwrap(seg.header.ackno, c.sender.isn, c.sender.rcvBase) <= c.sender.nextSeqno
                    then seg.header.win else adv)
  {
    P.AckReceivedObeys(c.sender, adv, seg.header.ackno, seg.header.win);
    FlushKeepsPosition(Answer(Deliver(c, seg), seg));
  }

  lemma ArrivalObeys(c: Connection, seg: Segment, adv: u16)
    requires Inv(c) && Ready(c) && P.Obeys(c.sender, adv) && ForwardAt(c, Arrives(seg), adv)
    ensures P.Obeys(SegmentReceived(c, seg).sender, Advertised(c, Arrives(seg), adv))
  {
    var d := c.(sinceLast := 0);
    if Exchanges(c, seg) {
      ExchangeObeys(d, seg, adv);
    } else if c.active && Listening(c) {
      FillObeys(d.(receiver := R.SegmentReceived(d.receiver, seg)), adv);
    }
  }

  lemma TickKeepsPosition(c: Connection, ms: nat)
    requires Ready(c)
    ensures SamePosition(c.sender, Tick(c, ms).sender)
  {
    if c.active {
      FlushKeepsPosition(GiveUp(Elapse(c, ms)));
    }
  }

  /** Every call keeps the sender inside what was last advertised. */
  lemma StepObeys(c: Connection, e: Event, adv: u16)
    requires Inv(c) && Ready(c) && Enabled(c, e) && P.Obeys(c.sender, adv) && ForwardAt(c, e, adv)
    ensures P.Obeys(Step(c, e).sender, Advertised(c, e, adv))
  {
    match e
    case Arrives(seg) => ArrivalObeys(c, seg, adv);
    case Writes(data) =>
      if data != [] {
        I.WriteKeepsInv(c.sender, data);
        FillObeys(c.(sender := c.sender.(stream := c.sender.stream.Write(data))), adv);
      }
    case Ticks(ms) =>
      TickKeepsPosition(c, ms);
      SameObeys(c.sender, Tick(c, ms).sender, adv);
    case Ends =>
      I.EndInputKeepsInv(c.sender);
      FillObeys(c.(sender := c.sender.(stream := c.sender.stream.EndInput())), adv);
    case Connects => FillObeys(c, adv);
    case Reads(len) =>
  }

  /** An acknowledgement that is taken puts the sender's window inside the peer's. */
  lemma StepControlled(c: Connection, e: Event, adv: u16, peer: R.Receiver)
    requires Inv(c) && Ready(c) && Enabled(c, e) && ForwardAt(c, e, adv) && Controlled(c.sender, adv, peer)
    requires Started(peer) && R.Follows(peer, c.sender.isn, c.sender.stream.written)
    requires e.Arrives? ==> TrueAck(e.seg, c.sender.isn, peer)
    ensures Controlled(Step(c, e).sender, Advertised(c, e, adv), peer)
  {
    StepObeys(c, e, adv);
    StepMoves(c, e);
    BaseBound(peer, c.sender.isn, c.sender.stream.written);
    if e.Arrives? && Exchanges(c, e.seg) && e.seg.header.ack {
      FlaggedIsRead(c.sender, e.seg, peer);
    }
  }

  lemma ActControlled(sys: System, e: Event, next: System, adv: u16)
    requires SystemInv(sys) && HonestSystem(sys) && ActsAtA(sys, e, next)
    requires Controlled(sys.a.sender, adv, sys.b.receiver) && ForwardAt(sys.a, e, adv)
    ensures Controlled(next.a.sender, Advertised(sys.a, e, adv), next.b.receiver)
  {
    StepControlled(sys.a, e, adv, sys.b.receiver);
  }

  lemma PeerControlled(s: S.Sender, adv: u16, r: R.Receiver, q: R.Receiver)
    requires Controlled(s, adv, r) && Advanced(r, q)
    ensures Controlled(s, adv, q)
  {
  }

  lemma StepIsControlled(states: seq<System>, acts: seq<Action>, advs: seq<u16>, i: nat)
    requires IsRun(states, acts) && Advertises(states, acts, advs) && Forward(states, acts, advs) && i < |acts|
    requires Controlled(states[i].a.sender, advs[i], states[i].b.receiver)
    ensures Controlled(states[i + 1].a.sender, advs[i + 1], states[i + 1].b.receiver)
  {
    RunKeepsInv(states, acts, i);
    RunKeepsHonest(states, acts, i);
    StepKeepsHonest(states, acts, i);
    match acts[i]
    case AtA(e) => ActControlled(states[i], e, states[i + 1], advs[i]);
    case AtB(e) => PeerControlled(states[i].a.sender, advs[i], states[i].b.receiver, states[i + 1].b.receiver);
  }

  lemma StartsControlled(states: seq<System>, acts: seq<Action>)
    requires IsRun(states, acts)
    ensures Controlled(states[0].a.sender, 1, states[0].b.receiver)
  {
  }

  lemma {:induction false} RunIsControlled(states: seq<System>, acts: seq<Action>, advs: seq<u16>, i: nat)
    requires IsRun(states, acts) && Advertises(states, acts, advs) && Forward(states, acts, advs) && i < |states|
    ensures Controlled(states[i].a.sender, advs[i], states[i].b.receiver)
  {
    if i == 0 {
      StartsControlled(states, acts);
    } else {
      RunIsControlled(states, acts, advs, i - 1);
      StepIsControlled(states, acts, advs, i - 1);
    }
  }

  /**
   * In every state of a two-party run in which acknowledgements do not move backwards at a, everything a has
   * numbered and sent lies inside the window that b's receiver itself will accept; except for a probe of one
   * number beyond what is acknowledged, and for FIN.
   */
  lemma NeverBeyondPeersWindow(states: seq<System>, acts: seq<Action>, advs: seq<u16>, i: nat)
    requires IsRun(states, acts) && Advertises(states, acts, advs) && Forward(states, acts, advs) && i < |states|
    ensures var s, peer := states[i].a.sender, states[i].b.receiver;
            s.nextSeqno <= Max(R.RightEdge(peer), s.rcvBase + 1) + if s.finSent then 1 else 0
  {
    RunIsControlled(states, acts, advs, i);
  }
}
