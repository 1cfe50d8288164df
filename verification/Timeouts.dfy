/** What time does to a connection (tcp_connection.cc): it resends, backs off as time passes, and gives up. */
module Timeouts {
  import opened Numbers
  import opened TcpSegment
  import opened ConnectionModel
  import opened ConnectionInvariant
  import opened ConnectionRuns
  import R = ReceiverModel
  import S = SenderModel
  import I = SenderInvariant
  import P = SenderProperties

  /** The timer, the back-off and what is in flight are the same. */
  ghost predicate SameTimer(s: S.Sender, t: S.Sender) {
    && t.elapsed == s.elapsed && t.rto == s.rto && t.retransmissions == s.retransmissions
    && t.initialRto == s.initialRto && t.outstanding == s.outstanding && t.backOff == s.backOff
    && t.timerRunning == s.timerRunning
  }

  lemma FlushSameTimer(c: Connection)
    ensures SameTimer(c.sender, Flush(c).sender)
  {
  }

  /** A tick of an active connection is a tick of its sender. */
  lemma TickIsSenderTick(c: Connection, ms: nat)
    requires Ready(c) && c.active
    ensures SameTimer(S.Tick(c.sender, ms), Tick(c, ms).sender)
  {
    FlushSameTimer(GiveUp(Elapse(c, ms)));
  }

  // ---- Resending and giving up ----

  /** The tick reaches the timeout. */
  ghost predicate Expires(s: S.Sender, ms: nat) {
    s.outstanding != [] && s.rto <= s.elapsed + ms < TWO_32
  }

  /** How many retransmissions are counted once the timer has expired. */
  function CountAfter(s: S.Sender): nat { s.retransmissions + if s.backOff then 1 else 0 }

  lemma SenderResends(s: S.Sender, ms: nat)
    requires I.Inv(s) && Expires(s, ms) && s.retransmissions <= MAX_RETX_ATTEMPTS
    ensures var t := S.Tick(s, ms);
            t.segmentsOut == s.segmentsOut + [s.outstanding[0]] && t.retransmissions == CountAfter(s)
            && t.bytesInFlight == s.bytesInFlight && t.stream == s.stream && t.outstanding == s.outstanding
  {
  }

  lemma InFlightIsOpen(s: S.Sender)
    requires I.Inv(s) && s.outstanding != []
    ensures s.bytesInFlight > 0
  {
    assert s.outstanding[0].Length() > 0;
  }

  lemma FlushSends(c: Connection)
    ensures Flush(c).segmentsOut == c.segmentsOut + StampAll(c.receiver, c.sender.segmentsOut)
    ensures c.sender.bytesInFlight > 0 ==> Flush(c).active == c.active
  {
  }

  /** At the timeout, and up to the eighth time counted, the oldest segment in flight goes out again. */
  lemma TickResends(c: Connection, ms: nat)
    requires Inv(c) && Ready(c) && c.active && Expires(c.sender, ms) && CountAfter(c.sender) <= MAX_RETX_ATTEMPTS
    ensures var t := Tick(c, ms);
            t.active
            && t.segmentsOut == c.segmentsOut + StampAll(c.receiver, c.sender.segmentsOut + [c.sender.outstanding[0]])
  {
    SenderResends(c.sender, ms);
    InFlightIsOpen(c.sender);
    FlushSends(Elapse(c, ms));
  }

  lemma UncleanSends(c: Connection)
    requires c.sender.segmentsOut != []
    ensures var t := UncleanShutdown(c);
            && !t.active && t.sender.stream.error && t.receiver.asm.error
            && |t.segmentsOut| == |c.segmentsOut| + 1 && c.segmentsOut <= t.segmentsOut
            && t.segmentsOut[|c.segmentsOut|].header.rst
            && t.sender.segmentsOut == c.sender.segmentsOut[1..]
  {
  }

  /** The ninth time the connection gives up: both streams fail, and the first segment that goes out is a reset. */
  lemma TickGivesUp(c: Connection, ms: nat)
    requires Inv(c) && Ready(c) && c.active && Expires(c.sender, ms) && CountAfter(c.sender) > MAX_RETX_ATTEMPTS
    ensures var t := Tick(c, ms);
            && !t.active && t.sender.stream.error && t.receiver.asm.error
            && |t.segmentsOut| == |c.segmentsOut| + |c.sender.segmentsOut| + 1 && c.segmentsOut <= t.segmentsOut
            && t.segmentsOut[|c.segmentsOut|].header.rst
  {
    SenderResends(c.sender, ms);
    var d := Elapse(c, ms);
    UncleanSends(d);
    FlushSends(UncleanShutdown(d));
    FlushStaysStopped(UncleanShutdown(d));
  }

  lemma FlushStaysStopped(c: Connection)
    ensures !c.active ==> !Flush(c).active
    ensures Flush(c).receiver == c.receiver && Flush(c).sender.stream == c.sender.stream
  {
  }

  // ---- The count keeps up with time ----

  ghost predicate InTime(s: S.Sender) { s.elapsed <= s.rto }

  lemma ExchangeInTime(c: Connection, seg: Segment)
    requires R.Representable(c.receiver) && I.Inv(c.sender) && P.BackedOff(c.sender) && InTime(c.sender)
    ensures InTime(Exchange(c, seg).sender)
  {
    var clock := P.ClockExists(c.sender);
    P.AckReceivedKeepsBackoff(c.sender, seg.header.ackno, seg.header.win, clock);
    SettlingKeepsTimer(Deliver(c, seg), seg);
  }

  lemma ArrivalInTime(c: Connection, seg: Segment)
    requires Inv(c) && Ready(c) && InTime(c.sender)
    ensures InTime(SegmentReceived(c, seg).sender)
  {
    var d := c.(sinceLast := 0);
    if c.active && Listening(c) {
      FillKeepsTimer(d.(receiver := R.SegmentReceived(d.receiver, seg)));
    } else if c.active {
      ExchangeInTime(d, seg);
    }
  }

  lemma StepInTime(c: Connection, e: Event)
    requires Inv(c) && Ready(c) && InTime(c.sender)
    ensures InTime(Step(c, e).sender)
  {
    if e.Ticks? {
      if c.active {
        TickIsSenderTick(c, e.ms);
      }
    } else if e.Arrives? {
      ArrivalInTime(c, e.seg);
    } else {
      CallKeepsTimer(c, e);
    }
  }

  /** Between calls the timer never shows more than the timeout. */
  lemma {:induction false} TimerIsInTime(states: seq<Connection>, events: seq<Event>, i: nat)
    requires IsRun(states, events) && StartsFresh(states) && i < |states|
    ensures InTime(states[i].sender)
  {
    if i > 0 {
      TimerIsInTime(states, events, i - 1);
      RunInv(states, events, i - 1);
      StepInTime(states[i - 1], events[i - 1]);
    }
  }

  /** Between i and j nothing happens but ticks of at most g milliseconds. */
  ghost predicate OnlyTicks(events: seq<Event>, i: nat, j: nat, g: nat)
    requires j <= |events|
  {
    forall k :: i <= k < j ==> events[k].Ticks? && events[k].ms <= g
  }

  /** One tick either adds to the timer, or uses up the timeout and at most g more and counts one more. */
  ghost predicate Counts(s: S.Sender, t: S.Sender, ms: nat, g: nat) {
    && t.initialRto == s.initialRto && t.outstanding == s.outstanding && t.backOff == s.backOff
    && ((t.retransmissions == s.retransmissions && t.elapsed == s.elapsed + ms)
        || (t.retransmissions == s.retransmissions + 1 && t.elapsed == 0 && s.elapsed + ms <= s.rto + g))
  }

  lemma SmallSum(e: nat, ms: nat, rto: nat)
    requires e <= rto < TWO_31 && ms < TWO_31
    ensures (e + ms) % TWO_32 == e + ms
  {
  }

  lemma SenderTickCounts(s: S.Sender, ms: nat, g: nat)
    requires s.timerRunning && s.outstanding != [] && s.backOff && InTime(s) && ms <= g < TWO_31
    requires s.rto < TWO_31 && s.retransmissions <= MAX_RETX_ATTEMPTS
    ensures Counts(s, S.Tick(s, ms), ms, g)
  {
    SmallSum(s.elapsed, ms, s.rto);
  }

  lemma TickCounts(c: Connection, ms: nat, g: nat)
    requires Inv(c) && Ready(c) && c.active && InTime(c.sender) && ms <= g < TWO_31
    requires c.sender.outstanding != [] && c.sender.backOff
    ensures Counts(c.sender, Tick(c, ms).sender, ms, g)
  {
    TickIsSenderTick(c, ms);
    P.DoublingFits(c.sender.initialRto, c.sender.retransmissions);
    SenderTickCounts(c.sender, ms, g);
  }

  lemma RunCountsTick(states: seq<Connection>, events: seq<Event>, i: nat, g: nat)
    requires IsRun(states, events) && StartsFresh(states) && i < |events|
    requires events[i].Ticks? && events[i].ms <= g < TWO_31
    requires states[i].active && states[i].sender.outstanding != [] && states[i].sender.backOff
    ensures Counts(states[i].sender, states[i + 1].sender, events[i].ms, g)
    ensures P.BackedOff(states[i].sender) && P.BackedOff(states[i + 1].sender)
  {
    RunInv(states, events, i);
    RunInv(states, events, i + 1);
    TimerIsInTime(states, events, i);
    var ms := events[i].ms;
    assert states[i + 1] == Step(states[i], Ticks(ms)) == Tick(states[i], ms);
    TickCounts(states[i], ms, g);
  }

  /** g, added n times. */
  function Times(n: nat, g: nat): nat { if n == 0 then 0 else Times(n - 1, g) + g }

  lemma {:induction false} TimesIsProduct(n: nat, g: nat)
    ensures Times(n, g) == n * g
  {
    if n > 0 {
      TimesIsProduct(n - 1, g);
      assert n * g == (n - 1) * g + g;
    }
  }

  /** The time used up by the retransmissions counted since s, and by the timer in t. */
  ghost predicate KeepsUp(s: S.Sender, t: S.Sender, time: nat, g: nat) {
    && t.initialRto == s.initialRto && t.outstanding == s.outstanding && t.backOff == s.backOff
    && s.retransmissions <= t.retransmissions
    && s.elapsed + time <= P.Doubled(t.initialRto, t.retransmissions) - P.Doubled(s.initialRto, s.retransmissions)
                           + Times(t.retransmissions - s.retransmissions, g) + t.elapsed
  }

  lemma KeepsUpStep(s: S.Sender, t: S.Sender, u: S.Sender, time: nat, ms: nat, g: nat)
    requires KeepsUp(s, t, time, g) && Counts(t, u, ms, g) && P.BackedOff(t)
    ensures KeepsUp(s, u, time + ms, g)
  {
    var n := t.retransmissions - s.retransmissions;
    assert Times(n + 1, g) == Times(n, g) + g;
    assert P.Doubled(t.initialRto, t.retransmissions + 1) == 2 * P.Doubled(t.initialRto, t.retransmissions);
  }

  lemma {:induction false} CountKeepsUp(states: seq<Connection>, events: seq<Event>, i: nat, j: nat, g: nat)
    requires IsRun(states, events) && StartsFresh(states) && i <= j < |states| && g < TWO_31
    requires OnlyTicks(events, i, j, g) && states[j].active
    requires states[i].sender.outstanding != [] && states[i].sender.backOff
    ensures KeepsUp(states[i].sender, states[j].sender, TotalTicks(events[i..j]), g)
    decreases j
  {
    if i < j {
      StaysStopped(states, events, j);
      CountKeepsUp(states, events, i, j - 1, g);
      RunCountsTick(states, events, j - 1, g);
      TicksSplit(events, i, j - 1);
      KeepsUpStep(states[i].sender, states[j - 1].sender, states[j].sender,
                  TotalTicks(events[i..j - 1]), events[j - 1].ms, g);
    }
  }

  /**
   * With something in flight, a window that is not zero, and nothing but ticks of at most g milliseconds between
   * two states of a run: by the time the count has gone from k to m and the connection is still active, at most
   * initial * (2^(m + 1) - 2^k) milliseconds have passed, and g more for each retransmission.
   */
  lemma RetransmissionsAreInTime(states: seq<Connection>, events: seq<Event>, i: nat, j: nat, g: nat)
    requires IsRun(states, events) && StartsFresh(states) && i <= j < |states| && g < TWO_31
    requires OnlyTicks(events, i, j, g) && states[j].active
    requires states[i].sender.outstanding != [] && states[i].sender.backOff
    ensures var s, t := states[i].sender, states[j].sender;
            && s.retransmissions <= t.retransmissions
            && s.elapsed + TotalTicks(events[i..j])
               <= s.initialRto * Pow2(t.retransmissions + 1) - s.initialRto * Pow2(s.retransmissions)
                  + (t.retransmissions - s.retransmissions) * g
  {
    var s, t := states[i].sender, states[j].sender;
    CountKeepsUp(states, events, i, j, g);
    TimerIsInTime(states, events, j);
    RunInv(states, events, j);
    TimesIsProduct(t.retransmissions - s.retransmissions, g);
    P.DoubledIsPower(s.initialRto, t.retransmissions + 1);
    P.DoubledIsPower(s.initialRto, s.retransmissions);
  }

  lemma FewTimes(n: int, g: nat)
    requires n <= 8
    ensures n * g <= 8 * g
  {
  }

  /** So a connection that hears nothing has given up once 511 initial timeouts, and eight ticks more, have passed. */
  lemma GivesUpInTime(states: seq<Connection>, events: seq<Event>, i: nat, j: nat, g: nat)
    requires IsRun(states, events) && StartsFresh(states) && i <= j < |states| && g < TWO_31
    requires OnlyTicks(events, i, j, g) && states[i].sender.outstanding != [] && states[i].sender.backOff
    requires TotalTicks(events[i..j]) > 511 * states[i].sender.initialRto + 8 * g
    ensures !states[j].active
  {
    if states[j].active {
      var s, t := states[i].sender, states[j].sender;
      CountKeepsUp(states, events, i, j, g);
      TimerIsInTime(states, events, j);
      RunInv(states, events, j);
      TimesIsProduct(t.retransmissions - s.retransmissions, g);
      FewTimes(t.retransmissions - s.retransmissions, g);
      P.DoublingLimit(s.initialRto, t.retransmissions + 1);
    }
  }
}
