/** The connection as an object (tcp_connection.cc); it computes the model in ConnectionModel.dfy. */
module TcpConnection {
  import opened Numbers
  import opened TcpSegment
  import opened SND = TcpSender
  import opened RCV = TcpReceiver
  import A = Assembly
  import R = ReceiverModel
  import C = ConnectionModel

  class TcpConnection {
    const rtTimeout: u16
    const receiver: TcpReceiver
    const sender: TcpSender
    var segmentsOut: seq<Segment>
    var linger: bool
    var sinceLast: nat
    var active: bool

    /** Everything the connection owns. */
    ghost const repr: set<object>

    ghost function Model(): C.Connection
      reads this, repr
      requires Owned()
    {
      C.Connection(rtTimeout, receiver.Model(), sender.Model(), segmentsOut, linger, sinceLast, active)
    }

    ghost predicate Owned() {
      && repr == {this, receiver, receiver.reassembler, receiver.reassembler.output, sender, sender.stream}
      && sender.stream != receiver.reassembler.output
    }

    ghost predicate Valid()
      reads this, repr
    {
      Owned() && receiver.Valid() && sender.Valid()
    }

    constructor (recvCapacity: nat, sendCapacity: nat, rtTimeout: u16, isn: u32)
      ensures Valid() && fresh(repr) && Model() == C.Fresh(recvCapacity, sendCapacity, rtTimeout, isn)
    {
      this.rtTimeout := rtTimeout;
      var r := new TcpReceiver(recvCapacity);
      var s := new TcpSender(sendCapacity, rtTimeout, isn);
      receiver, sender := r, s;
      segmentsOut, linger, sinceLast, active := [], true, 0, true;
      repr := {this, r, r.reassembler, r.reassembler.output, s, s.stream};
    }

    method SetSeg(seg: Segment) returns (r: Segment)
      requires Valid()
      ensures r == C.Stamp(Model().receiver, seg)
    {
      r := seg;
      var a := receiver.Ackno();
      if a.Some? {
        var w := receiver.WindowSize();
        r := r.(header := r.header.(ack := true, ackno := a.value, win := w % TWO_16));
      }
    }

    method SendSegsFromSender()
      requires Valid()
      modifies repr
      ensures Valid() && Model() == C.Flush(old(Model()))
    {
      Drain();
      CleanShutdown();
    }

    /** Lines 136-143. */
    method Drain()
      requires Valid()
      modifies this`segmentsOut, sender`segmentsOut
      ensures Valid() && sender.segmentsOut == [] && receiver.Model() == old(receiver.Model())
      ensures segmentsOut == old(segmentsOut) + C.StampAll(receiver.Model(), old(sender.segmentsOut))
    {
      ghost var all, before, r := sender.segmentsOut, segmentsOut, receiver.Model();
      ghost var k := 0;
      while sender.segmentsOut != []
        invariant Valid() && 0 <= k <= |all| && sender.segmentsOut == all[k..]
        invariant receiver.Model() == r
        invariant segmentsOut == before + C.StampAll(r, all[..k])
        decreases |sender.segmentsOut|
      {
        assert all[..k + 1][..k] == all[..k];
        PassOn();
        k := k + 1;
      }
      assert all[..k] == all;
    }

    /** Lines 139-142: the first queued segment is stamped and passed on. */
    method PassOn()
      requires Valid() && sender.segmentsOut != []
      modifies this`segmentsOut, sender`segmentsOut
      ensures Valid() && receiver.Model() == old(receiver.Model())
      ensures sender.segmentsOut == old(sender.segmentsOut)[1..]
      ensures segmentsOut == old(segmentsOut) + [C.Stamp(receiver.Model(), old(sender.segmentsOut)[0])]
    {
      var seg := SetSeg(sender.segmentsOut[0]);
      sender.segmentsOut := sender.segmentsOut[1..];
      segmentsOut := segmentsOut + [seg];
    }

    method CleanShutdown()
      requires Valid()
      modifies this`linger, this`active
      ensures Valid() && Model() == C.CleanShutdown(old(Model()))
    {
      var eof := sender.stream.Eof();
      if !eof && receiver.reassembler.output.inputEnd {
        linger := false;
      }
      if eof && receiver.reassembler.output.inputEnd && sender.bytesInFlight == 0 {
        if !linger || sinceLast >= 10 * rtTimeout {
          active := false;
        }
      }
    }

    /** Set the error on both streams and stop. */
    method Fail()
      requires Valid()
      modifies repr
      ensures Valid() && Model() == C.Fail(old(Model()))
      ensures sender.segmentsOut == old(sender.segmentsOut)
    {
      sender.stream.SetError();
      receiver.reassembler.output.SetError();
      receiver.reassembler.ConsistentIsValid();
      active := false;
    }

    method UncleanShutdown()
      requires Valid() && sender.segmentsOut != []
      modifies repr
      ensures Valid() && Model() == C.UncleanShutdown(old(Model()))
    {
      Fail();
      SendReset();
    }

    /** Lines 167-172: the first queued segment leaves with the reset flag. */
    method SendReset()
      requires Valid() && sender.segmentsOut != []
      modifies this`segmentsOut, sender`segmentsOut
      ensures Valid()
      ensures var f := old(Model());
              var seg := C.Stamp(f.receiver, f.sender.segmentsOut[0]);
              Model() == f.(sender := f.sender.(segmentsOut := f.sender.segmentsOut[1..]),
                            segmentsOut := f.segmentsOut + [seg.(header := seg.header.(rst := true))])
    {
      var seg := SetSeg(sender.segmentsOut[0]);
      seg := seg.(header := seg.header.(rst := true));
      sender.segmentsOut := sender.segmentsOut[1..];
      segmentsOut := segmentsOut + [seg];
    }

    method Connect()
      requires Valid() && C.Ready(Model())
      modifies repr
      ensures Valid() && Model() == C.Connect(old(Model()))
    {
      FillAndFlush();
    }

    method FillAndFlush()
      requires Valid()
      modifies repr
      ensures Valid() && Model() == C.FillAndFlush(old(Model()))
    {
      sender.FillWindow();
      SendSegsFromSender();
    }

    method Write(data: seq<byte>) returns (n: nat)
      requires Valid() && C.Ready(Model())
      modifies repr
      ensures Valid() && Model() == C.Write(old(Model()), data)
      ensures n == |old(Model()).sender.stream.Accepted(data)|
    {
      if |data| == 0 {
        return 0;
      }
      n := sender.stream.Write(data);
      FillAndFlush();
    }

    method EndInputStream()
      requires Valid() && C.Ready(Model())
      modifies repr
      ensures Valid() && Model() == C.EndInput(old(Model()))
    {
      sender.stream.EndInput();
      FillAndFlush();
    }

    method Tick(ms: nat)
      requires Valid() && C.Ready(Model())
      modifies repr
      ensures Valid() && Model() == C.Tick(old(Model()), ms)
    {
      if !active {
        return;
      }
      Elapse(ms);
      ghost var d := Model();
      GiveUp();
      ghost var e := Model();
      assert e == C.GiveUp(d);
      SendSegsFromSender();
    }

    /** Lines 103-107. */
    method GiveUp()
      requires Valid() && (sender.retransmissions > C.MAX_RETX_ATTEMPTS ==> sender.segmentsOut != [])
      modifies repr
      ensures Valid() && Model() == C.GiveUp(old(Model()))
    {
      if sender.retransmissions > C.MAX_RETX_ATTEMPTS {
        UncleanShutdown();
      }
    }

    /** Lines 100-102. */
    method Elapse(ms: nat)
      requires Valid() && (sender.timerRunning ==> sender.outstanding != [])
      modifies this`sinceLast, sender
      ensures Valid() && Model() == C.Elapse(old(Model()), ms)
    {
      sinceLast := sinceLast + ms;
      sender.Tick(ms);
    }

    /** size_t sums in the reassembler stay exact. */
    ghost predicate RoomFor(seg: Segment)
      reads this, repr
      requires Owned()
    {
      receiver.reassembler.curIdx + receiver.capacity + |seg.payload| < TWO_64
    }

    /** Lines 69-70. */
    method Deliver(seg: Segment)
      requires Valid() && C.Ready(Model()) && RoomFor(seg)
      modifies repr
      ensures Valid() && Model() == C.Deliver(old(Model()), seg)
    {
      receiver.SegmentReceived(seg);
      sender.AckReceived(seg.header.ackno, seg.header.win);
    }

    /** Lines 69-81. */
    method Exchange(seg: Segment)
      requires Valid() && C.Ready(Model()) && RoomFor(seg)
      modifies repr
      ensures Valid() && Model() == C.Exchange(old(Model()), seg)
    {
      Deliver(seg);
      if seg.header.rst {
        QueueEmpty();
        UncleanShutdown();
        return;
      }
      Answer(seg);
      SendSegsFromSender();
    }

    method QueueEmpty()
      requires Valid()
      modifies sender`segmentsOut
      ensures Valid() && Model() == C.QueueEmpty(old(Model()))
    {
      sender.SendEmptySegment();
    }

    /** Lines 79-80. */
    method Answer(seg: Segment)
      requires Valid()
      modifies sender`segmentsOut
      ensures Valid() && Model() == C.Answer(old(Model()), seg)
    {
      var a := receiver.Ackno();
      if sender.segmentsOut == [] && a.Some? && seg.Length() > 0 {
        QueueEmpty();
      }
    }

    /** A connection that has sent SYN and heard nothing takes only an empty ACK, or a bare SYN: lines 46-57. */
    method Opening(seg: Segment)
      requires Valid() && C.Ready(Model()) && RoomFor(seg)
      requires |seg.payload| > 0 || !seg.header.ack
      modifies repr
      ensures Valid()
      ensures var d := old(Model());
              Model() == if !seg.header.ack && seg.header.syn
                         then C.QueueEmpty(d.(receiver := R.SegmentReceived(d.receiver, seg)))
                         else d
    {
      if !seg.header.ack && seg.header.syn {
        receiver.SegmentReceived(seg);
        sender.SendEmptySegment();
      }
    }

    /** Lines 33-39. */
    method Listen(seg: Segment)
      requires Valid() && C.Ready(Model()) && RoomFor(seg)
      modifies repr
      ensures Valid()
      ensures var d := old(Model());
              Model() == if !seg.header.syn then d
                         else C.FillAndFlush(d.(receiver := R.SegmentReceived(d.receiver, seg)))
    {
      if !seg.header.syn {
        return;
      }
      receiver.SegmentReceived(seg);
      FillAndFlush();
    }

    method SegmentReceived(seg: Segment)
      requires Valid() && C.Ready(Model()) && RoomFor(seg)
      modifies repr
      ensures Valid() && Model() == C.SegmentReceived(old(Model()), seg)
    {
      if !active {
        return;
      }
      sinceLast := 0;
      assert Model() == old(Model()).(sinceLast := 0);
      var a := receiver.Ackno();
      var listen := a.None? && sender.nextSeqno == 0;
      if listen {
        Listen(seg);
        return;
      }
      var synSent := sender.nextSeqno > 0 && sender.nextSeqno == sender.bytesInFlight;
      if synSent && a.None? {
        if |seg.payload| > 0 || !seg.header.ack {
          Opening(seg);
          return;
        }
        if seg.header.rst {
          Fail();
          return;
        }
      }
      Exchange(seg);
    }

    /** The application reads from the inbound stream. */
    method Read(len: nat) returns (s: seq<byte>)
      requires Valid() && C.Ready(Model())
      modifies repr
      ensures Valid() && Model() == C.Read(old(Model()), len)
      ensures s == A.Output(Model().receiver.asm)[old(Model()).receiver.asm.popped..Model().receiver.asm.popped]
      ensures |s| == Min(len, A.Cur(old(Model()).receiver.asm) - old(Model()).receiver.asm.popped)
    {
      s := receiver.Read(len);
    }
  }
}
