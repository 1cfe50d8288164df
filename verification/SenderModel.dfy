/** The sending half of TCP (tcp_sender.cc), as values; machine widths are written out. */
module SenderModel {
  import opened Numbers
  import opened WrappingIntegers
  import opened TcpSegment
  import opened ByteStream

  const MAX_PAYLOAD_SIZE := 1452

  datatype Sender = Sender(
    isn: u32, initialRto: u16, stream: Stream,
    nextSeqno: u64, rcvBase: u32, window: u32,
    outstanding: seq<Segment>, bytesInFlight: u64, segmentsOut: seq<Segment>,
    rto: u32, retransmissions: u32, elapsed: u32, timerRunning: bool, backOff: bool,
    synSent: bool, finSent: bool)

  function Fresh(capacity: nat, rto: u16, isn: u32): Sender {
    Sender(isn, rto, Empty(capacity), 0, 0, 1, [], 0, [], rto, 0, 0, false, true, false, false)
  }

  /** _segment_handler: number a segment, remember it, send it, and start the timer if it is idle. */
  function Emit(s: Sender, seg: Segment): Sender {
    var numbered := seg.At(Wrap(s.nextSeqno, s.isn));
    s.(bytesInFlight := (s.bytesInFlight + seg.Length()) % TWO_64,
       nextSeqno := (s.nextSeqno + seg.Length()) % TWO_64,
       outstanding := s.outstanding + [numbered],
       segmentsOut := s.segmentsOut + [numbered],
       elapsed := if s.timerRunning then s.elapsed else 0,
       timerRunning := true)
  }

  /** Sequence numbers left up to the edge, as an unsigned 32-bit difference. */
  function Free(s: Sender, edge: u32): u32 { (edge - s.nextSeqno) % TWO_32 }

  function WaitingForSyn(s: Sender): bool { s.outstanding != [] && s.outstanding[0].header.syn }

  /** A zero window counts as one. */
  function Widened(s: Sender): Sender { s.(window := if s.window == 0 then 1 else s.window) }

  /** The right edge of the window, a 32-bit sum. */
  function Edge(s: Sender): u32 { (s.rcvBase + s.window) % TWO_32 }

  /** The end of the stream sent on its own, if nothing is left to send before it. */
  function FinAlone(s: Sender, edge: u32): Sender {
    if s.stream.Eof() && edge > s.nextSeqno then Emit(s.(finSent := true), DataSegment([], true)) else s
  }

  /** One data segment of at most n bytes; FIN rides along if the stream ends and the window looks wide enough. */
  function SendData(s: Sender, n: nat): Sender
    requires s.stream.Valid()
  {
    var payload, rest := s.stream.Peek(n), s.stream.Pop(n);
    var fin := rest.Eof() && |payload| < s.window;
    Emit(s.(stream := rest, finSent := s.finSent || fin), DataSegment(payload, fin))
  }

  predicate CanSend(s: Sender, edge: u32) { Free(s, edge) != 0 && !s.finSent && s.stream.BufferSize() != 0 }

  function SendAll(s: Sender, edge: u32): Sender
    requires s.stream.Valid()
    decreases s.stream.BufferSize()
  {
    if CanSend(s, edge) then SendAll(SendData(s, Min(Free(s, edge), MAX_PAYLOAD_SIZE)), edge) else s
  }

  function FillWindow(s: Sender): Sender
    requires s.stream.Valid()
  {
    if !s.synSent then Emit(s.(synSent := true), SYN_SEGMENT)
    else if WaitingForSyn(s) then s
    else if s.finSent then s
    else
      var w := Widened(s);
      SendAll(FinAlone(w, Edge(w)), Edge(w))
  }

  /** End of the front segment as the code computes it: unwrapped near rcvBase, then cut to 32 bits. */
  function EndOfFront(s: Sender): u32
    requires s.outstanding != []
  {
    (Unwrap(s.outstanding[0].header.seqno, s.isn, s.rcvBase) + s.outstanding[0].Length()) % TWO_32
  }

  function DropFront(s: Sender): Sender
    requires s.outstanding != []
  {
    s.(bytesInFlight := (s.bytesInFlight - s.outstanding[0].Length()) % TWO_64, outstanding := s.outstanding[1..])
  }

  /** Drop fully acknowledged segments from the front. */
  function DropAcked(s: Sender, ack: u64): (r: Sender)
    ensures r.stream == s.stream && |r.outstanding| <= |s.outstanding|
    decreases |s.outstanding|
  {
    if s.outstanding == [] || ack < EndOfFront(s) then s else DropAcked(DropFront(s), ack)
  }

  /** Timer and back-off after an acknowledgement moved rcvBase; newData: it freed at least one segment. */
  function Rearm(s: Sender, newData: bool): Sender {
    var r := if newData then s.(rto := s.initialRto, retransmissions := 0) else s;
    r.(elapsed := if newData || s.outstanding == [] then 0 else s.elapsed,
       timerRunning := s.timerRunning && s.outstanding != [])
  }

  /** An acknowledgement of something new: rcvBase moves, covered segments leave, the timer is set again. */
  function Advance(s: Sender, ack: u64): (r: Sender)
    ensures r.stream == s.stream
  {
    var d := DropAcked(s.(rcvBase := ack % TWO_32), ack);
    Rearm(d, |d.outstanding| < |s.outstanding|)
  }

  function AckReceived(s: Sender, ackno: u32, win: u16): Sender
    requires s.stream.Valid()
  {
    var ack := Unwrap(ackno, s.isn, s.rcvBase);
    if ack > s.nextSeqno then s
    else
      var w := s.(window := win, backOff := win != 0);
      if ack <= s.rcvBase then w else FillWindow(Advance(w, ack))
  }

  function Tick(s: Sender, ms: nat): Sender
    requires s.timerRunning ==> s.outstanding != []
  {
    if !s.timerRunning then s
    else
      var e := (s.elapsed + ms) % TWO_32;
      if e < s.rto then s.(elapsed := e)
      else
        var r := s.(segmentsOut := s.segmentsOut + [s.outstanding[0]], elapsed := 0);
        if s.backOff
        then r.(rto := (s.rto * 2) % TWO_32, retransmissions := (s.retransmissions + 1) % TWO_32)
        else r
  }

  function SendEmpty(s: Sender): Sender {
    s.(segmentsOut := s.segmentsOut + [EMPTY_SEGMENT.At(Wrap(s.nextSeqno, s.isn))])
  }
}
