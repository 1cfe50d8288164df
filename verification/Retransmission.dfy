/** When a sender retransmits, over whole runs: exactly at the time-out, exactly the oldest segment (tcp_sender.cc). */
module Retransmission {
  import opened Numbers
  import opened WrappingIntegers
  import opened SenderModel
  import opened SenderInvariant
  import opened SenderProperties
  import opened SenderRuns

  function Milliseconds(op: Op): nat { if op.Ticks? then op.ms else 0 }

  /** The time that passes in a list of operations. */
  function Elapsed(ops: seq<Op>): nat {
    if ops == [] then 0 else Elapsed(ops[..|ops| - 1]) + Milliseconds(ops[|ops| - 1])
  }

  lemma ElapsedSnoc(ops: seq<Op>, i: nat, j: nat)
    requires i <= j < |ops|
    ensures Elapsed(ops[i..j + 1]) == Elapsed(ops[i..j]) + Milliseconds(ops[j])
  {
    var tail := ops[i..j + 1];
    assert tail[..|tail| - 1] == ops[i..j];
  }

  ghost predicate OnlyTicks(ops: seq<Op>, i: nat, j: nat)
    requires j <= |ops|
  {
    forall k :: i <= k < j ==> ops[k].Ticks?
  }

  // ---- The window and the back-off ----

  lemma StepBacksOffIff(s: Sender, op: Op, adv: u16)
    requires Inv(s) && Allowed(s, op) && (s.backOff <==> adv != 0)
    ensures Step(s, op).backOff <==> Advertised(s, op, adv) != 0
  {
    match op
    case Fills => FillWindowOnlySends(s);
    case Acks(ackno, win) =>
      var ack := Unwrap(ackno, s.isn, s.rcvBase);
      if s.rcvBase < ack <= s.nextSeqno {
        var w := s.(window := win, backOff := win != 0);
        AdvanceKeepsInv(w, ack);
        AdvanceFrame(w, ack);
        FillWindowOnlySends(Advance(w, ack));
      }
    case Ticks(_) =>
    case Probes =>
    case Writes(_) =>
    case Ends =>
    case Collects =>
  }

  /** The sender backs off exactly while the last accepted acknowledgement advertised a window. */
  lemma {:induction false} BacksOffIff(states: seq<Sender>, advs: seq<u16>, ops: seq<Op>, i: nat)
    requires IsRun(states, advs, ops) && i < |states|
    ensures states[i].backOff <==> advs[i] != 0
  {
    if i > 0 {
      BacksOffIff(states, advs, ops, i - 1);
      RunInv(states, advs, ops, i - 1);
      StepBacksOffIff(states[i - 1], ops[i - 1], advs[i - 1]);
    }
  }

  // ---- Ticks ----

  /** Before the time-out a tick does nothing but count. */
  lemma EarlyTick(s: Sender, ms: nat)
    requires Inv(s) && s.outstanding != [] && s.elapsed + ms < s.rto
    ensures Tick(s, ms) == s.(elapsed := s.elapsed + ms)
  {
  }

  /** Nothing happens as long as the time that has passed stays below the timeout. */
  lemma {:induction false} SilentBeforeTimeout(states: seq<Sender>, advs: seq<u16>, ops: seq<Op>, i: nat, j: nat)
    requires IsRun(states, advs, ops) && i <= j < |states| && OnlyTicks(ops, i, j)
    requires states[i].outstanding != [] && states[i].elapsed + Elapsed(ops[i..j]) < states[i].rto
    ensures states[j] == states[i].(elapsed := states[i].elapsed + Elapsed(ops[i..j])) && advs[j] == advs[i]
    decreases j
  {
    if i < j {
      ElapsedSnoc(ops, i, j - 1);
      SilentBeforeTimeout(states, advs, ops, i, j - 1);
      RunInv(states, advs, ops, j - 1);
      EarlyTick(states[j - 1], ops[j - 1].ms);
    }
  }

  /** What the time-out makes of a sender: the oldest segment is sent again, and the timer starts over. */
  ghost predicate TimesOut(s: Sender, t: Sender, backOff: bool)
    requires s.outstanding != []
  {
    && t.segmentsOut == s.segmentsOut + [s.outstanding[0]] && t.elapsed == 0
    && t.rto == (if backOff then s.rto * 2 % TWO_32 else s.rto)
    && t.retransmissions == (if backOff then (s.retransmissions + 1) % TWO_32 else s.retransmissions)
    && t == s.(segmentsOut := t.segmentsOut, elapsed := 0, rto := t.rto, retransmissions := t.retransmissions)
  }

  /**
   * In any run, with something outstanding in states[i] and nothing but ticks after it: the first tick with which
   * the time passed reaches the timeout sends the oldest segment again, and nothing else; the timeout doubles and
   * the count grows if and only if the last accepted window was nonzero; and the timer starts over.
   */
  lemma RetransmitsAtTimeout(states: seq<Sender>, advs: seq<u16>, ops: seq<Op>, i: nat, j: nat)
    requires IsRun(states, advs, ops) && i <= j < |ops| && OnlyTicks(ops, i, j + 1) && states[i].outstanding != []
    requires states[i].elapsed + Elapsed(ops[i..j]) < states[i].rto
    requires states[i].rto <= states[i].elapsed + Elapsed(ops[i..j + 1]) < TWO_32
    ensures TimesOut(states[i], states[j + 1], advs[i] != 0)
  {
    SilentBeforeTimeout(states, advs, ops, i, j);
    ElapsedSnoc(ops, i, j);
    BacksOffIff(states, advs, ops, j);
    RunInv(states, advs, ops, j);
  }
}
