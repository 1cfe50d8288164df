/** Protocol stages read off counters (tcp_state.cc), and why that reading is right. */
module TcpState {
  import opened TcpSegment
  import opened ByteStream
  import opened ConnectionModel
  import opened ConnectionInvariant
  import opened ConnectionRuns
  import R = ReceiverModel
  import S = SenderModel
  import I = SenderInvariant
  import P = SenderProperties
  import A = Assembly
  import E = EndToEnd
  import F = StreamEnd

  datatype SenderStage = SenderFailed | Closed | SynSent | SynAcked | FinSent | FinAcked

  datatype ReceiverStage = ReceiverFailed | Listen | SynReceived | FinReceived

  function SenderSummary(s: S.Sender): SenderStage {
    if s.stream.error then SenderFailed
    else if s.nextSeqno == 0 then Closed
    else if s.nextSeqno == s.bytesInFlight then SynSent
    else if !s.stream.Eof() then SynAcked
    else if s.nextSeqno < |s.stream.written| + 2 then SynAcked
    else if s.bytesInFlight > 0 then FinSent
    else FinAcked
  }

  function ReceiverSummary(r: R.Receiver): ReceiverStage {
    if r.asm.error then ReceiverFailed
    else if R.Ackno(r).None? then Listen
    else if r.asm.ended then FinReceived
    else SynReceived
  }

  /** The same stage, told from what was sent and what was acknowledged. */
  function StageByHistory(s: S.Sender): SenderStage {
    if !s.synSent then Closed
    else if s.rcvBase == 0 then SynSent
    else if !s.finSent then SynAcked
    else if s.rcvBase < |s.stream.written| + 2 then FinSent
    else FinAcked
  }

  /** All sequence numbers so far are in flight exactly while the SYN is unacknowledged. */
  lemma AllInFlightIff(s: S.Sender)
    requires I.Inv(s) && s.synSent
    ensures s.nextSeqno == s.bytesInFlight <==> s.rcvBase == 0
  {
    if I.Front(s) == 0 {
      assert s.outstanding != [];
      assert SliceAt(s.outstanding[0], s.isn, s.stream.written, 0);
    }
  }

  lemma NoneInFlightIff(s: S.Sender)
    requires I.Inv(s)
    ensures s.bytesInFlight == 0 <==> s.rcvBase == s.nextSeqno
  {
    if s.outstanding != [] {
      assert s.bytesInFlight >= s.outstanding[0].Length();
    }
  }

  /** The stage read from the counters is the stage of the history. */
  lemma SummaryIsHistory(s: S.Sender)
    requires I.Inv(s) && !s.stream.error
    ensures SenderSummary(s) == StageByHistory(s)
  {
    NoneInFlightIff(s);
    if s.synSent {
      AllInFlightIff(s);
    }
  }

  function Rank(g: SenderStage): nat {
    match g
    case SenderFailed => 5
    case Closed => 0
    case SynSent => 1
    case SynAcked => 2
    case FinSent => 3
    case FinAcked => 4
  }

  lemma StageAdvances(s: S.Sender, t: S.Sender)
    requires I.Inv(s) && I.Inv(t) && P.Evolves(s, t)
    ensures Rank(StageByHistory(s)) <= Rank(StageByHistory(t))
  {
  }

  /** Over any run, the summary only moves forward through CLOSED, SYN_SENT, SYN_ACKED, FIN_SENT, FIN_ACKED. */
  lemma {:induction false} StagesMoveForward(states: seq<Connection>, events: seq<Event>, i: nat, j: nat)
    requires IsRun(states, events) && StartsFresh(states) && i <= j < |states|
    requires !states[i].sender.stream.error && !states[j].sender.stream.error
    ensures Rank(SenderSummary(states[i].sender)) <= Rank(SenderSummary(states[j].sender))
  {
    RunInv(states, events, i);
    RunInv(states, events, j);
    SummaryIsHistory(states[i].sender);
    SummaryIsHistory(states[j].sender);
    HistoryMovesForward(states, events, i, j);
  }

  lemma StepAdvances(states: seq<Connection>, events: seq<Event>, i: nat)
    requires IsRun(states, events) && StartsFresh(states) && i < |events|
    ensures Rank(StageByHistory(states[i].sender)) <= Rank(StageByHistory(states[i + 1].sender))
  {
    RunInv(states, events, i);
    StepKeepsInv(states[i], events[i]);
    StageAdvances(states[i].sender, states[i + 1].sender);
  }

  lemma {:induction false} HistoryMovesForward(states: seq<Connection>, events: seq<Event>, i: nat, j: nat)
    requires IsRun(states, events) && StartsFresh(states) && i <= j < |states|
    ensures Rank(StageByHistory(states[i].sender)) <= Rank(StageByHistory(states[j].sender))
    decreases j
  {
    if i < j {
      HistoryMovesForward(states, events, i, j - 1);
      StepAdvances(states, events, j - 1);
    }
  }

  /** LISTEN exactly until a SYN is taken; FIN_RECV exactly once FIN has arrived and all that was written is there. */
  ghost predicate StageIsHistory(from: Stream, to: R.Receiver) {
    !to.asm.error ==>
      && (ReceiverSummary(to) == Listen <==> !to.syn)
      && (ReceiverSummary(to) == FinReceived <==> to.fin && from.ended && A.Output(to.asm) == from.written)
  }

  /** In a two-party run whose FINs arrive in order, both receiver summaries say what has been delivered. */
  lemma ReceiverSummaryIsHistory(states: seq<E.System>, acts: seq<E.Action>, i: nat)
    requires E.IsRun(states, acts) && i < |states| && F.FinsInOrder(states, acts)
    ensures StageIsHistory(states[i].a.sender.stream, states[i].b.receiver)
    ensures StageIsHistory(states[i].b.sender.stream, states[i].a.receiver)
  {
    E.RunKeepsInv(states, acts, i);
    F.OrderGivesComplete(states, acts, i);
  }
}
