/** What the sender promises over whole runs: window respect, full windows, back-off, and its stages. */
module SenderProperties {
  import opened Numbers
  import opened WrappingIntegers
  import opened TcpSegment
  import opened SenderModel
  import opened SenderInvariant

  // ---- What filling the window leaves alone ----

  /** t comes from s by sending: the stream's content, the acknowledgement and the back-off state are the same. */
  ghost predicate OnlySends(s: Sender, t: Sender) {
    && t.isn == s.isn && t.initialRto == s.initialRto && t.rcvBase == s.rcvBase
    && t.stream == s.stream.(read := t.stream.read) && s.stream.read <= t.stream.read
    && t.rto == s.rto && t.retransmissions == s.retransmissions && t.backOff == s.backOff
    && t.elapsed <= s.elapsed && (s.timerRunning ==> t.timerRunning && t.elapsed == s.elapsed)
    && (s.synSent ==> t.synSent) && (s.finSent ==> t.finSent)
    && s.segmentsOut <= t.segmentsOut
  }

  lemma {:induction false} SendAllOnlySends(s: Sender, edge: u32)
    requires s.stream.Valid()
    ensures OnlySends(s, SendAll(s, edge)) && SendAll(s, edge).window == s.window
    decreases s.stream.BufferSize()
  {
    if CanSend(s, edge) {
      var n := Min(Free(s, edge), MAX_PAYLOAD_SIZE);
      SendAllOnlySends(SendData(s, n), edge);
    }
  }

  lemma FillWindowOnlySends(s: Sender)
    requires s.stream.Valid()
    ensures OnlySends(s, FillWindow(s))
    ensures FillWindow(s).window == s.window || (s.window == 0 && FillWindow(s).window == 1)
  {
    if s.synSent && !WaitingForSyn(s) && !s.finSent {
      var w := Widened(s);
      SendAllOnlySends(FinAlone(w, Edge(w)), Edge(w));
    }
  }

  // ---- Staying inside the window, and filling it ----

  /** Nothing more can be sent: the window is full, the end is sent, or the stream has nothing now. */
  ghost predicate Saturated(s: Sender, edge: int) {
    s.nextSeqno == edge || s.finSent || (s.stream.BufferSize() == 0 && !s.stream.ended)
  }

  lemma FreeExact(s: Sender, edge: u32)
    requires s.nextSeqno <= edge
    ensures Free(s, edge) == edge - s.nextSeqno
  {
  }

  lemma {:induction false} SendAllFillsWindow(s: Sender, edge: u32)
    requires Inv(s) && s.synSent && s.window > 0 && edge == s.rcvBase + s.window
    requires s.finSent ==> s.nextSeqno <= edge + 1
    requires !s.finSent ==> s.nextSeqno <= edge
    requires !s.finSent && s.stream.Eof() ==> s.nextSeqno == edge
    ensures var t := SendAll(s, edge);
            Saturated(t, edge) && t.nextSeqno <= edge + (if t.finSent then 1 else 0)
    decreases s.stream.BufferSize()
  {
    if !s.finSent {
      FreeExact(s, edge);
    }
    if CanSend(s, edge) {
      var n := Min(Free(s, edge), MAX_PAYLOAD_SIZE);
      SendDataKeepsInv(s, n);
      SendAllFillsWindow(SendData(s, n), edge);
    }
  }

  /** The edge that a call of fill_window works with. */
  function WorkingEdge(s: Sender): int { s.rcvBase + Max(1, s.window) }

  ghost predicate ReadyToSend(s: Sender) { s.synSent && !WaitingForSyn(s) && !s.finSent }

  lemma EdgeExact(s: Sender)
    requires Inv(s)
    ensures Edge(Widened(s)) == WorkingEdge(s)
  {
  }

  /** Maximal filling: if nothing overruns the window on entry, it ends full and is overrun by FIN alone. */
  lemma FillWindowFills(s: Sender)
    requires Inv(s) && ReadyToSend(s) && s.nextSeqno <= WorkingEdge(s)
    ensures var t := FillWindow(s);
            && Saturated(t, WorkingEdge(s))
            && t.nextSeqno <= WorkingEdge(s) + (if t.finSent then 1 else 0)
  {
    var w := Widened(s);
    EdgeExact(s);
    SendFin(w, Edge(w));
    SendAllFillsWindow(FinAlone(w, Edge(w)), Edge(w));
  }

  /** The size of the last segment when n bytes are sent in full segments as far as possible. */
  function LastPiece(n: nat): nat
    requires n > 0
  {
    (n - 1) % MAX_PAYLOAD_SIZE + 1
  }

  lemma LastPieceSteps(n: nat)
    requires n > MAX_PAYLOAD_SIZE
    ensures LastPiece(n) == LastPiece(n - MAX_PAYLOAD_SIZE)
  {
  }

  lemma LastPieceAlone(n: nat)
    requires 0 < n <= MAX_PAYLOAD_SIZE
    ensures LastPiece(n) == n
  {
  }

  /** The rest of the stream fills the free part of the window exactly, and its last piece is below the whole window. */
  predicate Spills(ended: bool, left: int, free: int, window: int) {
    ended && 0 < left == free && LastPiece(left) < window
  }

  ghost predicate FinSpills(s: Sender, free: int, window: int) {
    Spills(s.stream.ended, s.stream.BufferSize(), free, window)
  }

  /** A piece that is not the last leaves the question as it was. */
  lemma SpillsNext(ended: bool, left: nat, free: nat, window: int)
    requires free > 0 && left > Min(free, MAX_PAYLOAD_SIZE)
    ensures var n := Min(free, MAX_PAYLOAD_SIZE);
            Spills(ended, left, free, window) <==> Spills(ended, left - n, free - n, window)
  {
    if left > MAX_PAYLOAD_SIZE {
      LastPieceSteps(left);
    }
  }

  lemma {:induction false} SendAllSpillsIff(s: Sender, edge: u32)
    requires Inv(s) && s.synSent && !s.finSent && s.window > 0 && edge == s.rcvBase + s.window && s.nextSeqno <= edge
    ensures SendAll(s, edge).nextSeqno > edge <==> FinSpills(s, edge - s.nextSeqno, s.window)
    decreases s.stream.BufferSize()
  {
    FreeExact(s, edge);
    if CanSend(s, edge) {
      var n := Min(Free(s, edge), MAX_PAYLOAD_SIZE);
      var t := SendData(s, n);
      SendDataKeepsInv(s, n);
      if s.stream.BufferSize() <= n {
        LastPieceAlone(s.stream.BufferSize());
        assert !CanSend(t, edge);
      } else {
        SendAllSpillsIff(t, edge);
        SpillsNext(s.stream.ended, s.stream.BufferSize(), Free(s, edge), s.window);
      }
    }
  }

  /** FIN is sent one beyond the window if and only if the rest of the stream fills it exactly and FIN rides along. */
  lemma FinSpillsIff(s: Sender)
    requires Inv(s) && ReadyToSend(s) && s.nextSeqno <= WorkingEdge(s)
    ensures FillWindow(s).nextSeqno > WorkingEdge(s)
            <==> FinSpills(s, WorkingEdge(s) - s.nextSeqno, Max(1, s.window))
  {
    var w := Widened(s);
    EdgeExact(s);
    SendFin(w, Edge(w));
    if !(w.stream.Eof() && Edge(w) > w.nextSeqno) {
      SendAllSpillsIff(w, Edge(w));
    }
  }

  /** The unsigned difference is the free space exactly when the window has not shrunk below what was sent. */
  lemma FreeIsExactIff(s: Sender)
    requires Inv(s)
    ensures Free(Widened(s), Edge(Widened(s))) == WorkingEdge(s) - s.nextSeqno <==> s.nextSeqno <= WorkingEdge(s)
    ensures s.nextSeqno > WorkingEdge(s) ==> Free(Widened(s), Edge(Widened(s))) > TWO_31
  {
    EdgeExact(s);
    var d := WorkingEdge(s) - s.nextSeqno;
    if d < 0 {
      assert d % TWO_32 == d + TWO_32;
    }
  }

  /** fill_window stays inside the window if and only if it has not shrunk below what was sent, or there is no data. */
  lemma StaysInWindowIff(s: Sender)
    requires Inv(s) && ReadyToSend(s)
    ensures FillWindow(s).nextSeqno <= Max(s.nextSeqno, WorkingEdge(s)) + (if FillWindow(s).finSent then 1 else 0)
            <==> s.nextSeqno <= WorkingEdge(s) || s.stream.BufferSize() == 0
  {
    if s.nextSeqno <= WorkingEdge(s) {
      FillWindowFills(s);
    } else {
      var w := Widened(s);
      EdgeExact(s);
      FreeIsExactIff(s);
      FillWindowKeepsInv(s);
      FillWindowOnlySends(s);
      assert FinAlone(w, Edge(w)) == w;
      if s.stream.BufferSize() > 0 {
        var n := Min(Free(w, Edge(w)), MAX_PAYLOAD_SIZE);
        SendAllOnlySends(SendData(w, n), Edge(w));
        assert FillWindow(s).stream.read > s.stream.read;
      }
    }
  }

  /** The sender obeys the advertisement adv made with its last accepted acknowledgement; FIN may exceed it by one. */
  ghost predicate Obeys(s: Sender, adv: u16) {
    && (s.window == adv || (adv == 0 && s.window == 1))
    && s.nextSeqno <= s.rcvBase + Max(1, adv) + (if s.finSent then 1 else 0)
  }

  lemma FillWindowObeys(s: Sender, adv: u16)
    requires Inv(s) && Obeys(s, adv)
    ensures Obeys(FillWindow(s), adv)
  {
    FillWindowOnlySends(s);
    if ReadyToSend(s) {
      FillWindowFills(s);
    }
  }

  /** The acknowledgement is not taken, or moves neither the ackno nor the right edge to the left. */
  ghost predicate NotBackwards(s: Sender, adv: u16, ackno: u32, win: u16) {
    var ack := Unwrap(ackno, s.isn, s.rcvBase);
    ack <= s.nextSeqno ==> s.rcvBase <= ack && s.rcvBase + adv <= ack + win
  }

  /** Window respect: acknowledgements that never move backwards keep everything sent inside the advertised window. */
  lemma AckReceivedObeys(s: Sender, adv: u16, ackno: u32, win: u16)
    requires Inv(s) && Obeys(s, adv) && NotBackwards(s, adv, ackno, win)
    ensures Obeys(AckReceived(s, ackno, win), if Unwrap(ackno, s.isn, s.rcvBase) <= s.nextSeqno then win else adv)
  {
    var ack := Unwrap(ackno, s.isn, s.rcvBase);
    if s.rcvBase < ack <= s.nextSeqno {
      var w := s.(window := win, backOff := win != 0);
      AdvanceKeepsInv(w, ack);
      AdvanceFrame(w, ack);
      FillWindowObeys(Advance(w, ack), win);
    }
  }

  lemma AdvanceFrame(s: Sender, ack: u64)
    ensures var t := Advance(s, ack);
            && t.nextSeqno == s.nextSeqno && t.window == s.window && t.finSent == s.finSent && t.synSent == s.synSent
            && t.isn == s.isn && t.initialRto == s.initialRto && t.stream == s.stream
            && t.segmentsOut == s.segmentsOut && t.backOff == s.backOff
            && ((t.rto == s.rto && t.retransmissions == s.retransmissions && t.elapsed <= s.elapsed)
                || (t.rto == t.initialRto && t.retransmissions == 0 && t.elapsed == 0))
  {
    DropAckedFrame(s.(rcvBase := ack % TWO_32), ack);
  }

  // ---- What an acknowledgement of new data must do ----

  /** The number that an acknowledgement is read as lies beyond what was acknowledged, and not beyond what was sent. */
  ghost predicate NewlyAcks(s: Sender, ackno: u32) {
    s.rcvBase < Unwrap(ackno, s.isn, s.rcvBase) <= s.nextSeqno
  }

  /** Some segment is in flight, and the number covers the oldest one in full. */
  ghost predicate CoversFront(s: Sender, ack: int) {
    s.outstanding != [] && Front(s) + s.outstanding[0].Length() <= ack
  }

  lemma DropsFrontIff(s: Sender, ack: u64)
    requires Inv(s) && s.rcvBase < ack <= s.nextSeqno
    ensures s.outstanding != []
    ensures |DropAcked(s.(rcvBase := ack % TWO_32), ack).outstanding| < |s.outstanding| <==> CoversFront(s, ack)
  {
    var moved := s.(rcvBase := ack % TWO_32);
    assert moved.rcvBase == ack;
    EndOfFrontExact(moved);
  }

  /**
   * An acknowledgement that covers the oldest segment resets the timeout, the count and the timer; one that
   * acknowledges only a part of it leaves all three alone.
   */
  lemma AckResetsIff(s: Sender, ackno: u32, win: u16)
    requires Inv(s) && NewlyAcks(s, ackno)
    ensures var t, covered := AckReceived(s, ackno, win), CoversFront(s, Unwrap(ackno, s.isn, s.rcvBase));
            && t.rto == (if covered then s.initialRto else s.rto)
            && t.retransmissions == (if covered then 0 else s.retransmissions)
            && t.elapsed == (if covered then 0 else s.elapsed)
  {
    var ack := Unwrap(ackno, s.isn, s.rcvBase);
    var w := s.(window := win, backOff := win != 0);
    DropsFrontIff(w, ack);
    AdvanceKeepsInv(w, ack);
    AdvanceFrame(w, ack);
    DropAckedFrame(w.(rcvBase := ack % TWO_32), ack);
    FillWindowOnlySends(Advance(w, ack));
  }

  lemma SynIsAcknowledged(s: Sender)
    requires Inv(s) && s.rcvBase > 0
    ensures s.synSent && !WaitingForSyn(s)
  {
  }

  /** An acknowledgement of new data fills the window it opens at once, as long as that has not shrunk too far. */
  lemma AckReceivedFills(s: Sender, ackno: u32, win: u16)
    requires Inv(s) && NewlyAcks(s, ackno)
    requires s.finSent || s.nextSeqno <= Unwrap(ackno, s.isn, s.rcvBase) + Max(1, win)
    ensures var ack := Unwrap(ackno, s.isn, s.rcvBase);
            AckReceived(s, ackno, win).rcvBase == ack && Saturated(AckReceived(s, ackno, win), ack + Max(1, win))
  {
    var ack := Unwrap(ackno, s.isn, s.rcvBase);
    var w := s.(window := win, backOff := win != 0);
    AdvanceKeepsInv(w, ack);
    AdvanceFrame(w, ack);
    var a := Advance(w, ack);
    SynIsAcknowledged(a);
    FillWindowOnlySends(a);
    if !a.finSent {
      FillWindowFills(a);
    }
  }

  // ---- Closing ----

  /** A finished stream with nothing in flight has had its FIN sent. */
  ghost predicate EndIsSent(s: Sender) { s.stream.Eof() && s.bytesInFlight == 0 ==> s.finSent }

  lemma FillWindowSendsEnd(s: Sender)
    requires Inv(s)
    ensures EndIsSent(FillWindow(s))
  {
    var t := FillWindow(s);
    FillWindowKeepsInv(s);
    FillWindowOnlySends(s);
    if t.bytesInFlight == 0 && ReadyToSend(s) {
      assert s.nextSeqno <= t.nextSeqno == t.rcvBase;
      FillWindowFills(s);
    }
  }

  lemma AckReceivedSendsEnd(s: Sender, ackno: u32, win: u16)
    requires Inv(s) && EndIsSent(s)
    ensures EndIsSent(AckReceived(s, ackno, win))
  {
    var ack := Unwrap(ackno, s.isn, s.rcvBase);
    if s.rcvBase < ack <= s.nextSeqno {
      var w := s.(window := win, backOff := win != 0);
      AdvanceKeepsInv(w, ack);
      FillWindowSendsEnd(Advance(w, ack));
    }
  }

  /** Nothing in flight after FIN means the peer acknowledged every byte and the FIN itself. */
  lemma AllAcknowledged(s: Sender)
    requires Inv(s) && s.finSent && s.bytesInFlight == 0
    ensures s.rcvBase == |s.stream.written| + 2
  {
  }

  // ---- Retransmission back-off ----

  /** x, doubled k times. */
  function Doubled(x: nat, k: nat): (r: nat)
    ensures r >= x
  {
    if k == 0 then x else 2 * Doubled(x, k - 1)
  }

  lemma {:induction false} DoubledIsPower(x: nat, k: nat)
    ensures Doubled(x, k) == x * Pow2(k)
  {
    if k > 0 {
      DoubledIsPower(x, k - 1);
      assert x * (2 * Pow2(k - 1)) == 2 * (x * Pow2(k - 1));
    }
  }

  /** The timeout has doubled once per counted retransmission, without overflow. */
  ghost predicate BackedOff(s: Sender) {
    s.retransmissions <= 9 && s.rto == Doubled(s.initialRto, s.retransmissions)
  }

  /** clock: milliseconds ticked since new data was last acknowledged. */
  ghost predicate Waited(s: Sender, clock: nat) {
    Doubled(s.initialRto, s.retransmissions) - s.initialRto + s.elapsed <= clock
  }

  lemma {:induction false} DoublingFits(rto: u16, k: nat)
    requires k <= 9
    ensures Doubled(rto, k) < TWO_16 * 512
    ensures k <= 8 ==> Doubled(rto, k) < TWO_16 * 256
  {
    assert forall i {:trigger Doubled(rto, i)} :: 0 < i <= 9 ==> Doubled(rto, i) == 2 * Doubled(rto, i - 1);
    assert Doubled(rto, 3) == 8 * rto;
    assert Doubled(rto, 6) == 64 * rto;
    assert Doubled(rto, 9) == 512 * rto;
  }

  lemma {:induction false} DoublingLimit(rto: u16, k: nat)
    requires k <= 9
    ensures Doubled(rto, k) <= 512 * rto
    decreases 9 - k
  {
    if k < 9 {
      DoublingLimit(rto, k + 1);
      assert Doubled(rto, k + 1) == 2 * Doubled(rto, k);
    } else {
      assert forall i {:trigger Doubled(rto, i)} :: 0 < i <= 9 ==> Doubled(rto, i) == 2 * Doubled(rto, i - 1);
      assert Doubled(rto, 3) == 8 * rto;
      assert Doubled(rto, 6) == 64 * rto;
    }
  }

  lemma CutAtMost(x: nat)
    ensures x % TWO_32 <= x
  {
  }

  /** The timer fires with a nonzero window: one more retransmission, twice the timeout. */
  lemma FiringBacksOff(s: Sender, ms: nat, clock: nat, t: Sender)
    requires BackedOff(s) && Waited(s, clock) && s.retransmissions <= 8
    requires s.rto <= (s.elapsed + ms) % TWO_32
    requires t.initialRto == s.initialRto && t.elapsed == 0
    requires t.retransmissions == s.retransmissions + 1 && t.rto == (s.rto * 2) % TWO_32
    ensures BackedOff(t) && Waited(t, clock + ms)
  {
    var k, e := s.retransmissions, (s.elapsed + ms) % TWO_32;
    DoublingFits(s.initialRto, k);
    CutAtMost(s.elapsed + ms);
    assert Doubled(s.initialRto, k + 1) == 2 * Doubled(s.initialRto, k);
  }

  lemma LaterClock(s: Sender, ms: nat, clock: nat, t: Sender)
    requires BackedOff(s) && Waited(s, clock)
    requires t.initialRto == s.initialRto && t.rto == s.rto && t.retransmissions == s.retransmissions
    requires t.elapsed <= s.elapsed + ms
    ensures BackedOff(t) && Waited(t, clock + ms)
  {
  }

  /** A tick at most doubles the timeout, and only after waiting it out in full. */
  lemma TickBacksOff(s: Sender, ms: nat, clock: nat)
    requires s.timerRunning ==> s.outstanding != []
    requires BackedOff(s) && Waited(s, clock) && s.retransmissions <= 8
    ensures BackedOff(Tick(s, ms)) && Waited(Tick(s, ms), clock + ms)
    ensures Tick(s, ms).retransmissions > s.retransmissions ==>
              s.outstanding != [] && Tick(s, ms).segmentsOut == s.segmentsOut + [s.outstanding[0]]
  {
    var t, e := Tick(s, ms), (s.elapsed + ms) % TWO_32;
    CutAtMost(s.elapsed + ms);
    if s.timerRunning && e >= s.rto && s.backOff {
      assert t.retransmissions == s.retransmissions + 1;
      FiringBacksOff(s, ms, clock, t);
    } else {
      LaterClock(s, ms, clock, t);
    }
  }

  /** The timeout and the count are the same, and the timer at most restarted. */
  ghost predicate TimerKept(s: Sender, t: Sender) {
    && t.initialRto == s.initialRto && t.rto == s.rto && t.retransmissions == s.retransmissions
    && t.elapsed <= s.elapsed
  }

  lemma SameBackoff(s: Sender, t: Sender, clock: nat)
    requires Waited(s, clock) && TimerKept(s, t)
    ensures Waited(t, clock)
    ensures BackedOff(s) ==> BackedOff(t)
  {
  }

  /** An acknowledgement leaves the back-off alone or, when it frees a segment, starts it over. */
  lemma AckReceivedKeepsBackoff(s: Sender, ackno: u32, win: u16, clock: nat)
    requires Inv(s) && BackedOff(s) && Waited(s, clock)
    ensures var t := AckReceived(s, ackno, win);
            && BackedOff(t) && t.retransmissions <= s.retransmissions
            && Waited(t, clock)
            && (TimerKept(s, t) || (t.retransmissions == 0 && t.elapsed == 0 && t.rto == t.initialRto))
  {
    var ack := Unwrap(ackno, s.isn, s.rcvBase);
    if s.rcvBase < ack <= s.nextSeqno {
      var w := s.(window := win, backOff := win != 0);
      AdvanceKeepsInv(w, ack);
      AdvanceFrame(w, ack);
      var a := Advance(w, ack);
      FillWindowOnlySends(a);
      if a.retransmissions == 0 && a.elapsed == 0 && a.rto == a.initialRto {
        assert BackedOff(a) && Waited(a, 0);
        SameBackoff(a, FillWindow(a), 0);
      } else {
        SameBackoff(s, FillWindow(a), clock);
      }
    } else {
      SameBackoff(s, AckReceived(s, ackno, win), clock);
    }
  }

  /** The doubling alone, without the clock. */
  lemma SameBackoffState(s: Sender, t: Sender)
    requires BackedOff(s) && OnlySends(s, t)
    ensures BackedOff(t)
  {
  }

  lemma ClockExists(s: Sender) returns (clock: nat)
    requires BackedOff(s)
    ensures Waited(s, clock)
  {
    clock := Doubled(s.initialRto, s.retransmissions) - s.initialRto + s.elapsed;
  }

  lemma AckReceivedBackedOff(s: Sender, ackno: u32, win: u16)
    requires Inv(s) && BackedOff(s)
    ensures BackedOff(AckReceived(s, ackno, win))
    ensures AckReceived(s, ackno, win).retransmissions <= s.retransmissions
  {
    var clock := ClockExists(s);
    AckReceivedKeepsBackoff(s, ackno, win, clock);
  }

  lemma TickBackedOff(s: Sender, ms: nat)
    requires s.timerRunning ==> s.outstanding != []
    requires BackedOff(s) && s.retransmissions <= 8
    ensures BackedOff(Tick(s, ms))
  {
    var clock := ClockExists(s);
    TickBacksOff(s, ms, clock);
  }

  // ---- How a sender may change in one operation ----

  /** The stream's content is the same, and nothing sent or acknowledged is taken back. */
  ghost predicate Evolves(s: Sender, t: Sender) {
    && t.isn == s.isn && t.initialRto == s.initialRto
    && s.stream.written <= t.stream.written
    && (s.stream.ended ==> t.stream.ended && t.stream.written == s.stream.written)
    && (s.synSent ==> t.synSent) && (s.finSent ==> t.finSent) && s.rcvBase <= t.rcvBase
  }

  lemma AckReceivedEvolves(s: Sender, ackno: u32, win: u16)
    requires Inv(s)
    ensures var t := AckReceived(s, ackno, win);
            Evolves(s, t) && t.stream == s.stream.(read := t.stream.read)
  {
    var ack := Unwrap(ackno, s.isn, s.rcvBase);
    if s.rcvBase < ack <= s.nextSeqno {
      var w := s.(window := win, backOff := win != 0);
      AdvanceKeepsInv(w, ack);
      AdvanceFrame(w, ack);
      FillWindowOnlySends(Advance(w, ack));
    }
  }
}
