/** Runs of a connection from its creation: justified closing, bounded retries, and the stages of tcp_state.cc. */
module ConnectionRuns {
  import opened Numbers
  import opened TcpSegment
  import opened ConnectionModel
  import opened ConnectionInvariant
  import R = ReceiverModel
  import S = SenderModel
  import I = SenderInvariant
  import P = SenderProperties

  /** states[i + 1] is what the i-th event makes of states[i]. */
  ghost predicate IsRun(states: seq<Connection>, events: seq<Event>) {
    && |states| == |events| + 1
    && forall i {:trigger events[i]} :: 0 <= i < |events| ==>
         && Ready(states[i]) && Enabled(states[i], events[i])
         && states[i + 1] == Step(states[i], events[i])
  }

  ghost predicate StartsFresh(states: seq<Connection>) {
    states != [] && exists rc: nat, sc: nat, rto: u16, isn: u32 :: states[0] == Fresh(rc, sc, rto, isn)
  }

  lemma {:induction false} RunInv(states: seq<Connection>, events: seq<Event>, i: nat)
    requires IsRun(states, events) && StartsFresh(states) && i < |states|
    ensures Inv(states[i])
  {
    if i == 0 {
      var rc: nat, sc: nat, rto: u16, isn: u32 :| states[0] == Fresh(rc, sc, rto, isn);
      FreshInv(rc, sc, rto, isn);
    } else {
      RunInv(states, events, i - 1);
      StepKeepsInv(states[i - 1], events[i - 1]);
    }
  }

  // ---- Closing ----

  /** The peer has finished while this side has not. */
  ghost predicate PeerFinishedFirst(c: Connection) { c.receiver.asm.ended && !c.sender.stream.Eof() }

  lemma FlushLingers(c: Connection)
    ensures c.linger && !Flush(c).linger ==> PeerFinishedFirst(Flush(c))
  {
  }

  /** Lingering is switched off only in a call that ends with the peer finished first. */
  lemma StepLingers(c: Connection, e: Event)
    requires Ready(c)
    ensures c.linger && !Step(c, e).linger ==> PeerFinishedFirst(Step(c, e))
  {
    match e
    case Arrives(seg) =>
      var d := c.(sinceLast := 0);
      if Listening(c) {
        FlushLingers(d.(receiver := R.SegmentReceived(d.receiver, seg), sender := S.FillWindow(d.sender)));
      } else {
        FlushLingers(Answer(Deliver(d, seg), seg));
      }
    case Writes(data) =>
      FlushLingers(c.(sender := S.FillWindow(c.sender.(stream := c.sender.stream.Write(data)))));
    case Ticks(ms) =>
      if c.active {
        FlushLingers(GiveUp(Elapse(c, ms)));
      }
    case Ends => FlushLingers(c.(sender := S.FillWindow(c.sender.(stream := c.sender.stream.EndInput()))));
    case Connects => FlushLingers(c.(sender := S.FillWindow(c.sender)));
    case Reads(len) =>
  }

  lemma {:induction false} LingerHistory(states: seq<Connection>, events: seq<Event>, n: nat)
    requires IsRun(states, events) && StartsFresh(states) && n < |states| && !states[n].linger
    ensures exists k :: 0 <= k <= n && PeerFinishedFirst(states[k])
  {
    if n > 0 {
      if states[n - 1].linger {
        StepLingers(states[n - 1], events[n - 1]);
      } else {
        LingerHistory(states, events, n - 1);
      }
    }
  }

  function TicksOf(e: Event): nat { if e.Ticks? then e.ms else 0 }

  function TotalTicks(events: seq<Event>): nat {
    if events == [] then 0 else TotalTicks(events[..|events| - 1]) + TicksOf(events[|events| - 1])
  }

  /** The position after the last arrival, or the start. */
  function LastArrival(es: seq<Event>): (j: nat)
    ensures j <= |es| && (forall e :: e in es[j..] ==> !e.Arrives?) && (j > 0 ==> es[j - 1].Arrives?)
  {
    if es == [] then 0
    else if es[|es| - 1].Arrives? then |es|
    else
      var j := LastArrival(es[..|es| - 1]);
      assert es[j..] == es[..|es| - 1][j..] + [es[|es| - 1]];
      j
  }

  /** Milliseconds ticked since the last arrival, told from the events alone. */
  function Silence(es: seq<Event>): nat { TotalTicks(es[LastArrival(es)..]) }

  lemma SilenceSnoc(es: seq<Event>, e: Event)
    ensures Silence(es + [e]) == if e.Arrives? then 0 else Silence(es) + TicksOf(e)
  {
    var more := es + [e];
    assert more[..|es|] == es;
    if e.Arrives? {
      assert more[LastArrival(more)..] == [];
    } else {
      var tail := more[LastArrival(es)..];
      assert tail[..|tail| - 1] == es[LastArrival(es)..];
    }
  }

  lemma FlushCounts(c: Connection)
    ensures var d := Flush(c);
            && d.rtTimeout == c.rtTimeout && d.sinceLast == c.sinceLast && d.receiver == c.receiver
            && (!c.active ==> !d.active)
  {
  }

  lemma ExchangeCounts(c: Connection, seg: Segment)
    requires R.Representable(c.receiver) && c.sender.stream.Valid()
    ensures Exchange(c, seg).rtTimeout == c.rtTimeout && Exchange(c, seg).sinceLast == c.sinceLast
  {
    FlushCounts(Answer(Deliver(c, seg), seg));
  }

  lemma ArrivalCounts(c: Connection, seg: Segment)
    requires Ready(c) && c.active
    ensures SegmentReceived(c, seg).rtTimeout == c.rtTimeout && SegmentReceived(c, seg).sinceLast == 0
  {
    var d := c.(sinceLast := 0);
    if Listening(c) {
      FlushCounts(d.(receiver := R.SegmentReceived(d.receiver, seg), sender := S.FillWindow(d.sender)));
    } else {
      ExchangeCounts(d, seg);
    }
  }

  /** While a connection is active its counter restarts with every arrival and otherwise adds up the ticks. */
  lemma StepCounts(c: Connection, e: Event)
    requires Ready(c)
    ensures Step(c, e).rtTimeout == c.rtTimeout
    ensures c.active ==> Step(c, e).sinceLast == if e.Arrives? then 0 else c.sinceLast + TicksOf(e)
    ensures !c.active ==> Step(c, e).sinceLast == c.sinceLast && !Step(c, e).active
    ensures !c.active && c.receiver.asm.error ==> Step(c, e).receiver.asm.error
  {
    match e
    case Arrives(seg) =>
      if c.active {
        ArrivalCounts(c, seg);
      }
    case Writes(data) =>
      FlushCounts(c.(sender := S.FillWindow(c.sender.(stream := c.sender.stream.Write(data)))));
    case Ticks(ms) =>
      if c.active {
        FlushCounts(GiveUp(Elapse(c, ms)));
      }
    case Ends => FlushCounts(c.(sender := S.FillWindow(c.sender.(stream := c.sender.stream.EndInput()))));
    case Connects => FlushCounts(c.(sender := S.FillWindow(c.sender)));
    case Reads(len) =>
  }

  lemma {:induction false} CounterIsSilence(states: seq<Connection>, events: seq<Event>, n: nat)
    requires IsRun(states, events) && StartsFresh(states) && n < |states|
    requires n > 0 ==> states[n - 1].active
    ensures states[n].sinceLast == Silence(events[..n])
    ensures states[n].rtTimeout == states[0].rtTimeout
  {
    if n > 0 {
      StaysStopped(states, events, n - 1);
      CounterIsSilence(states, events, n - 1);
      RunCounts(states, events, n - 1);
      SilenceAt(events, n - 1);
    }
  }

  lemma SilenceAt(events: seq<Event>, i: nat)
    requires i < |events|
    ensures Silence(events[..i + 1]) == if events[i].Arrives? then 0 else Silence(events[..i]) + TicksOf(events[i])
  {
    SilenceSnoc(events[..i], events[i]);
    assert events[..i + 1] == events[..i] + [events[i]];
  }

  lemma RunCounts(states: seq<Connection>, events: seq<Event>, i: nat)
    requires IsRun(states, events) && i < |events|
    ensures var c, d, e := states[i], states[i + 1], events[i];
            && d.rtTimeout == c.rtTimeout
            && (c.active ==> d.sinceLast == if e.Arrives? then 0 else c.sinceLast + TicksOf(e))
            && (!c.active ==> !d.active && (c.receiver.asm.error ==> d.receiver.asm.error))
  {
    StepCounts(states[i], events[i]);
  }

  /** A connection that is active now was active before. */
  lemma StaysStopped(states: seq<Connection>, events: seq<Event>, n: nat)
    requires IsRun(states, events) && n < |states| && states[n].active
    ensures n > 0 ==> states[n - 1].active
  {
    if n > 0 {
      RunCounts(states, events, n - 1);
    }
  }

  /** FIN sent and everything acknowledged, and the inbound stream ended. */
  ghost predicate BothDone(c: Connection) {
    c.sender.finSent && c.sender.rcvBase == |c.sender.stream.written| + 2 && c.receiver.asm.ended
  }

  /** The state in which a run's connection stopped. */
  ghost predicate StopsAt(states: seq<Connection>, m: nat) {
    0 < m < |states| && states[m - 1].active && !states[m].active
  }

  lemma {:induction false} StoppedBefore(states: seq<Connection>, events: seq<Event>, n: nat) returns (m: nat)
    requires IsRun(states, events) && StartsFresh(states) && n < |states|
    requires !states[n].active && !states[n].receiver.asm.error
    ensures m <= n && StopsAt(states, m) && !states[m].receiver.asm.error
  {
    if states[n - 1].active {
      m := n;
    } else {
      RunCounts(states, events, n - 1);
      m := StoppedBefore(states, events, n - 1);
    }
  }

  /** The peer finished first at some moment up to m, or at m it has been silent for ten timeouts. */
  ghost predicate MayStop(states: seq<Connection>, events: seq<Event>, m: nat)
    requires |states| == |events| + 1 && m < |states|
  {
    || (exists k :: 0 <= k <= m && PeerFinishedFirst(states[k]))
    || Silence(events[..m]) >= 10 * states[0].rtTimeout
  }

  /**
   * A connection found inactive without an error has sent its FIN, has had every byte and the FIN
   * acknowledged, and its inbound stream has ended; and when it stopped, the peer had finished first
   * at some earlier point of the run, or no segment had arrived during at least ten timeouts of ticks.
   */
  lemma CleanCloseIsJustified(states: seq<Connection>, events: seq<Event>, n: nat)
    requires IsRun(states, events) && StartsFresh(states) && n < |states|
    requires !states[n].active && !states[n].receiver.asm.error
    ensures BothDone(states[n])
    ensures exists m :: 0 < m <= n && StopsAt(states, m) && MayStop(states, events, m)
  {
    RunInv(states, events, n);
    P.AllAcknowledged(states[n].sender);
    var m := StoppedBefore(states, events, n);
    RunInv(states, events, m);
    CounterIsSilence(states, events, m);
    if !states[m].linger {
      LingerHistory(states, events, m);
    }
    assert MayStop(states, events, m);
  }

  lemma DoneTick(c: Connection, ms: nat)
    requires Inv(c) && Ready(c) && c.active && BothDone(c)
    ensures Tick(c, ms).active <==> c.linger && c.sinceLast + ms < 10 * c.rtTimeout
    ensures Tick(c, ms).receiver.asm.error == c.receiver.asm.error
  {
    assert c.sender.nextSeqno == c.sender.rcvBase;
    assert c.sender.outstanding == [];
    assert c.sender.bytesInFlight == 0;
    assert Elapse(c, ms).sender == c.sender;
  }

  /**
   * In a run, the tick after both directions are done stops an active connection, without an error, if and
   * only if the peer finished first (it does not linger) or has been silent for ten timeouts by then.
   */
  lemma TickStopsWhenDone(states: seq<Connection>, events: seq<Event>, i: nat)
    requires IsRun(states, events) && StartsFresh(states) && i < |events|
    requires states[i].active && BothDone(states[i]) && events[i].Ticks?
    ensures !states[i + 1].active <==> !states[i].linger || Silence(events[..i + 1]) >= 10 * states[0].rtTimeout
    ensures !states[i + 1].receiver.asm.error
  {
    RunInv(states, events, i);
    CounterIsSilence(states, events, i + 1);
    RunCounts(states, events, i);
    var ms := events[i].ms;
    assert states[i + 1] == Step(states[i], Ticks(ms)) == Tick(states[i], ms);
    DoneTick(states[i], ms);
  }

  // ---- Giving up ----

  /** In every state of a run: the timeout is initial * 2^k in 32 bits, and an active connection has k <= 8. */
  lemma TimeoutNeverOverflows(states: seq<Connection>, events: seq<Event>, n: nat)
    requires IsRun(states, events) && StartsFresh(states) && n < |states|
    ensures var s := states[n].sender;
            && s.rto == s.initialRto * Pow2(s.retransmissions) < TWO_32 && s.retransmissions <= 9
            && (states[n].active ==> s.retransmissions <= MAX_RETX_ATTEMPTS)
            && (s.timerRunning <==> s.outstanding != [])
  {
    RunInv(states, events, n);
    P.DoubledIsPower(states[n].sender.initialRto, states[n].sender.retransmissions);
  }

  /** Queueing, flushing and failing leave the sender's timer and acknowledgement alone. */
  lemma FlushKeepsTimer(c: Connection)
    ensures P.TimerKept(c.sender, Flush(c).sender) && Flush(c).sender.rcvBase == c.sender.rcvBase
  {
  }

  lemma FillKeepsTimer(c: Connection)
    requires c.sender.stream.Valid()
    ensures P.TimerKept(c.sender, FillAndFlush(c).sender)
  {
    P.FillWindowOnlySends(c.sender);
    FlushKeepsTimer(c.(sender := S.FillWindow(c.sender)));
  }

  lemma GiveUpKeepsTimer(c: Connection)
    requires c.sender.retransmissions > MAX_RETX_ATTEMPTS ==> c.sender.segmentsOut != []
    ensures P.TimerKept(c.sender, Flush(GiveUp(c)).sender)
  {
    FlushKeepsTimer(GiveUp(c));
  }

  lemma ElapseWaits(c: Connection, ms: nat, clock: nat)
    requires c.sender.timerRunning ==> c.sender.outstanding != []
    requires P.BackedOff(c.sender) && c.sender.retransmissions <= MAX_RETX_ATTEMPTS && P.Waited(c.sender, clock)
    ensures P.Waited(Elapse(c, ms).sender, clock + ms)
  {
    P.TickBacksOff(c.sender, ms, clock);
  }

  lemma StillWaits(s: S.Sender, clock: nat, ms: nat)
    requires P.Waited(s, clock)
    ensures P.Waited(s, clock + ms)
  {
  }

  lemma TickWaits(c: Connection, ms: nat, clock: nat)
    requires Inv(c) && Ready(c) && P.Waited(c.sender, clock)
    ensures P.Waited(Tick(c, ms).sender, clock + ms)
  {
    if c.active {
      var d := Elapse(c, ms);
      ElapseWaits(c, ms, clock);
      GiveUpKeepsTimer(d);
      P.SameBackoff(d.sender, Flush(GiveUp(d)).sender, clock + ms);
    } else {
      StillWaits(c.sender, clock, ms);
    }
  }

  lemma SettlingKeepsTimer(c: Connection, seg: Segment)
    ensures var d := if seg.header.rst then UncleanShutdown(QueueEmpty(c)) else Flush(Answer(c, seg));
            P.TimerKept(c.sender, d.sender)
  {
    FlushKeepsTimer(Answer(c, seg));
  }

  lemma ExchangeWaits(c: Connection, seg: Segment, clock: nat)
    requires R.Representable(c.receiver) && I.Inv(c.sender) && P.BackedOff(c.sender) && P.Waited(c.sender, clock)
    ensures P.Waited(Exchange(c, seg).sender, clock)
  {
    var d := Deliver(c, seg);
    P.AckReceivedKeepsBackoff(c.sender, seg.header.ackno, seg.header.win, clock);
    SettlingKeepsTimer(d, seg);
    P.SameBackoff(d.sender, Exchange(c, seg).sender, clock);
  }

  lemma ArrivalWaits(c: Connection, seg: Segment, clock: nat)
    requires Inv(c) && Ready(c) && P.Waited(c.sender, clock)
    ensures P.Waited(SegmentReceived(c, seg).sender, clock)
  {
    var d := c.(sinceLast := 0);
    if c.active && Listening(c) {
      var f := d.(receiver := R.SegmentReceived(d.receiver, seg));
      FillKeepsTimer(f);
      P.SameBackoff(f.sender, FillAndFlush(f).sender, clock);
    } else if c.active {
      ExchangeWaits(d, seg, clock);
    }
  }

  lemma CallKeepsTimer(c: Connection, e: Event)
    requires Inv(c) && Ready(c) && (e.Writes? || e.Ends? || e.Connects? || e.Reads?)
    ensures P.TimerKept(c.sender, Step(c, e).sender)
  {
    match e
    case Writes(data) => FillKeepsTimer(c.(sender := c.sender.(stream := c.sender.stream.Write(data))));
    case Ends => FillKeepsTimer(c.(sender := c.sender.(stream := c.sender.stream.EndInput())));
    case Connects => FillKeepsTimer(c);
    case Reads(_) =>
  }

  /** No call counts retransmissions faster than they are waited for; acknowledgements only start the count over. */
  lemma StepWaits(c: Connection, e: Event, clock: nat)
    requires Inv(c) && Ready(c) && P.Waited(c.sender, clock)
    ensures P.Waited(Step(c, e).sender, clock + TicksOf(e))
  {
    if e.Ticks? {
      TickWaits(c, e.ms, clock);
    } else if e.Arrives? {
      ArrivalWaits(c, e.seg, clock);
    } else {
      CallKeepsTimer(c, e);
      P.SameBackoff(c.sender, Step(c, e).sender, clock);
    }
  }

  lemma {:induction false} InvAlong(states: seq<Connection>, events: seq<Event>, i: nat)
    requires IsRun(states, events) && Inv(states[0]) && i < |states|
    ensures Inv(states[i])
  {
    if i > 0 {
      InvAlong(states, events, i - 1);
      StepKeepsInv(states[i - 1], events[i - 1]);
    }
  }

  lemma RunWaits(states: seq<Connection>, events: seq<Event>, i: nat, clock: nat)
    requires IsRun(states, events) && Inv(states[0]) && i < |events| && P.Waited(states[i].sender, clock)
    ensures P.Waited(states[i + 1].sender, clock + TicksOf(events[i]))
  {
    InvAlong(states, events, i);
    StepWaits(states[i], events[i], clock);
  }

  lemma TicksSplit(events: seq<Event>, m: nat, n: nat)
    requires m <= n < |events|
    ensures TotalTicks(events[m..n + 1]) == TotalTicks(events[m..n]) + TicksOf(events[n])
  {
    var tail := events[m..n + 1];
    assert tail[..|tail| - 1] == events[m..n];
  }

  lemma {:induction false} WaitsSince(states: seq<Connection>, events: seq<Event>, m: nat, n: nat)
    requires IsRun(states, events) && Inv(states[0]) && m <= n < |states| && states[m].sender.retransmissions == 0
    ensures P.Waited(states[n].sender, states[m].sender.elapsed + TotalTicks(events[m..n]))
    decreases n
  {
    if m < n {
      WaitsSince(states, events, m, n - 1);
      var clock := states[m].sender.elapsed + TotalTicks(events[m..n - 1]);
      TicksSplit(events, m, n - 1);
      RunWaits(states, events, n - 1, clock);
    }
  }

  /**
   * Between any two states of a run, the first with no retransmission counted, whatever was acknowledged on the
   * way: the k retransmissions counted in the second took at least initial * (2^k - 1) milliseconds, of ticks in
   * between and of what the timer already showed in the first.
   */
  lemma RetransmissionsTakeTime(states: seq<Connection>, events: seq<Event>, m: nat, n: nat)
    requires IsRun(states, events) && Inv(states[0]) && m <= n < |states| && states[m].sender.retransmissions == 0
    ensures var s := states[n].sender;
            s.initialRto * (Pow2(s.retransmissions) - 1) + s.elapsed
            <= states[m].sender.elapsed + TotalTicks(events[m..n])
  {
    WaitsSince(states, events, m, n);
    P.DoubledIsPower(states[n].sender.initialRto, states[n].sender.retransmissions);
  }
}
