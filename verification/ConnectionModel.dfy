/** One endpoint of a connection (tcp_connection.cc), as values: a receiver, a sender, and when to stop. */
module ConnectionModel {
  import opened Numbers
  import opened TcpSegment
  import opened Options
  import R = ReceiverModel
  import S = SenderModel

  const MAX_RETX_ATTEMPTS := 8

  datatype Connection = Connection(
    rtTimeout: u16, receiver: R.Receiver, sender: S.Sender, segmentsOut: seq<Segment>,
    linger: bool, sinceLast: nat, active: bool)

  function Fresh(recvCapacity: nat, sendCapacity: nat, rtTimeout: u16, isn: u32): Connection {
    Connection(rtTimeout, R.Fresh(recvCapacity), S.Fresh(sendCapacity, rtTimeout, isn), [], true, 0, true)
  }

  /** set_seg: fill in what the receiver has to say. */
  function Stamp(r: R.Receiver, seg: Segment): Segment {
    match R.Ackno(r)
    case None => seg
    case Some(a) => seg.(header := seg.header.(ack := true, ackno := a, win := R.WindowSize(r) % TWO_16))
  }

  function StampAll(r: R.Receiver, segs: seq<Segment>): (out: seq<Segment>)
    ensures |out| == |segs| && forall i :: 0 <= i < |segs| ==> out[i] == Stamp(r, segs[i])
  {
    if segs == [] then [] else StampAll(r, segs[..|segs| - 1]) + [Stamp(r, segs[|segs| - 1])]
  }

  /** clean_shutdown: note a passive close, and stop once both directions are done. */
  function CleanShutdown(c: Connection): Connection {
    var d := if !c.sender.stream.Eof() && c.receiver.asm.ended then c.(linger := false) else c;
    if c.sender.stream.Eof() && c.receiver.asm.ended && c.sender.bytesInFlight == 0
       && (!d.linger || c.sinceLast >= 10 * c.rtTimeout)
    then d.(active := false)
    else d
  }

  /** send_segs_from_sender: stamp and pass on everything the sender queued. */
  function Flush(c: Connection): Connection {
    CleanShutdown(c.(segmentsOut := c.segmentsOut + StampAll(c.receiver, c.sender.segmentsOut),
                     sender := c.sender.(segmentsOut := [])))
  }

  /** Both streams get an error and the connection stops. */
  function Fail(c: Connection): Connection {
    c.(sender := c.sender.(stream := c.sender.stream.SetError()),
       receiver := c.receiver.(asm := c.receiver.asm.(error := true)),
       active := false)
  }

  /** unclean_shutdown: fail, and send the first queued segment as a reset. */
  function UncleanShutdown(c: Connection): Connection
    requires c.sender.segmentsOut != []
  {
    var f := Fail(c);
    var seg := Stamp(f.receiver, c.sender.segmentsOut[0]);
    f.(sender := f.sender.(segmentsOut := c.sender.segmentsOut[1..]),
       segmentsOut := c.segmentsOut + [seg.(header := seg.header.(rst := true))])
  }

  /** What the parts need of their caller. */
  ghost predicate Ready(c: Connection) {
    && R.Representable(c.receiver) && c.sender.stream.Valid()
    && (c.sender.timerRunning ==> c.sender.outstanding != [])
    && (c.active ==> c.sender.retransmissions <= MAX_RETX_ATTEMPTS)
  }

  function FillAndFlush(c: Connection): Connection
    requires c.sender.stream.Valid()
  {
    Flush(c.(sender := S.FillWindow(c.sender)))
  }

  function Listening(c: Connection): bool { R.Ackno(c.receiver) == None && c.sender.nextSeqno == 0 }

  function SynSent(c: Connection): bool {
    c.sender.nextSeqno > 0 && c.sender.nextSeqno == c.sender.bytesInFlight
  }

  /** The segment goes to the receiver, its acknowledgement to the sender (with or without the ACK flag). */
  function Deliver(c: Connection, seg: Segment): Connection
    requires R.Representable(c.receiver) && c.sender.stream.Valid()
  {
    c.(receiver := R.SegmentReceived(c.receiver, seg),
       sender := S.AckReceived(c.sender, seg.header.ackno, seg.header.win))
  }

  function QueueEmpty(c: Connection): Connection { c.(sender := S.SendEmpty(c.sender)) }

  /** Make sure that a segment which takes up sequence space is answered. */
  function Answer(c: Connection, seg: Segment): Connection {
    if c.sender.segmentsOut == [] && R.Ackno(c.receiver).Some? && seg.Length() > 0 then QueueEmpty(c) else c
  }

  /** An established (or opening) connection takes a segment: lines 69-81. */
  function Exchange(c: Connection, seg: Segment): Connection
    requires R.Representable(c.receiver) && c.sender.stream.Valid()
  {
    if seg.header.rst then UncleanShutdown(QueueEmpty(Deliver(c, seg)))
    else Flush(Answer(Deliver(c, seg), seg))
  }

  function SegmentReceived(c: Connection, seg: Segment): Connection
    requires Ready(c)
  {
    if !c.active then c
    else
      var d := c.(sinceLast := 0);
      if Listening(c) then
        if !seg.header.syn then d
        else FillAndFlush(d.(receiver := R.SegmentReceived(d.receiver, seg)))
      else if SynSent(c) && R.Ackno(c.receiver) == None && (seg.payload != [] || !seg.header.ack) then
        if !seg.header.ack && seg.header.syn
        then QueueEmpty(d.(receiver := R.SegmentReceived(d.receiver, seg)))
        else d
      else if SynSent(c) && R.Ackno(c.receiver) == None && seg.header.rst then Fail(d)
      else Exchange(d, seg)
  }

  function Write(c: Connection, data: seq<byte>): Connection
    requires Ready(c)
  {
    if data == [] then c else FillAndFlush(c.(sender := c.sender.(stream := c.sender.stream.Write(data))))
  }

  function EndInput(c: Connection): Connection
    requires Ready(c)
  {
    FillAndFlush(c.(sender := c.sender.(stream := c.sender.stream.EndInput())))
  }

  function Connect(c: Connection): Connection
    requires Ready(c)
  {
    FillAndFlush(c)
  }

  /** Give up, with a reset, after too many retransmissions. */
  function GiveUp(c: Connection): Connection
    requires c.sender.retransmissions > MAX_RETX_ATTEMPTS ==> c.sender.segmentsOut != []
  {
    if c.sender.retransmissions > MAX_RETX_ATTEMPTS then UncleanShutdown(c) else c
  }

  /** Time passes for the connection and for its sender; too many retransmissions leave one queued. */
  function Elapse(c: Connection, ms: nat): (d: Connection)
    requires c.sender.timerRunning ==> c.sender.outstanding != []
    ensures c.sender.retransmissions <= MAX_RETX_ATTEMPTS < d.sender.retransmissions ==> d.sender.segmentsOut != []
  {
    c.(sinceLast := c.sinceLast + ms, sender := S.Tick(c.sender, ms))
  }

  function Tick(c: Connection, ms: nat): Connection
    requires Ready(c)
  {
    if !c.active then c else Flush(GiveUp(Elapse(c, ms)))
  }

  function Read(c: Connection, len: nat): Connection
    requires Ready(c)
  {
    c.(receiver := R.Read(c.receiver, len))
  }

  /** The owner takes the queued segments away. */
  function Collect(c: Connection): Connection { c.(segmentsOut := []) }
}
