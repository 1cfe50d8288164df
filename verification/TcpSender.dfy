/** The sender as an object (tcp_sender.cc), with the loops of the code; it computes the model in SenderModel.dfy. */
module TcpSender {
  import opened Numbers
  import opened WrappingIntegers
  import opened TcpSegment
  import opened BS = ByteStream
  import M = SenderModel

  class TcpSender {
    const isn: u32
    const initialRto: u16
    const stream: ByteStream
    var segmentsOut: seq<Segment>
    var nextSeqno: u64
    var outstanding: seq<Segment>
    var rto: u32
    var bytesInFlight: u64
    var retransmissions: u32
    var timerRunning: bool
    var backOff: bool
    var elapsed: u32
    var window: u32
    var rcvBase: u32
    var synSent: bool
    var finSent: bool

    ghost function Model(): M.Sender
      reads this, stream
    {
      M.Sender(isn, initialRto, stream.Model(), nextSeqno, rcvBase, window, outstanding, bytesInFlight, segmentsOut,
               rto, retransmissions, elapsed, timerRunning, backOff, synSent, finSent)
    }

    ghost predicate Valid()
      reads this, stream
    {
      stream.Valid()
    }

    constructor (capacity: nat, retxTimeout: u16, isn: u32)
      ensures Valid() && fresh(stream) && Model() == M.Fresh(capacity, retxTimeout, isn)
    {
      this.isn, initialRto := isn, retxTimeout;
      stream := new ByteStream(capacity);
      segmentsOut, nextSeqno, outstanding, rto, bytesInFlight := [], 0, [], retxTimeout, 0;
      retransmissions, timerRunning, backOff, elapsed, window, rcvBase := 0, false, true, 0, 1, 0;
      synSent, finSent := false, false;
    }

    method SegmentHandler(seg: Segment)
      requires Valid()
      modifies this
      ensures Valid() && Model() == M.Emit(old(Model()), seg)
    {
      var numbered := seg.At(Wrap(nextSeqno, isn));
      bytesInFlight := (bytesInFlight + numbered.Length()) % TWO_64;
      nextSeqno := (nextSeqno + numbered.Length()) % TWO_64;
      outstanding := outstanding + [numbered];
      segmentsOut := segmentsOut + [numbered];
      if !timerRunning {
        timerRunning := true;
        elapsed := 0;
      }
    }

    method FillWindow()
      requires Valid()
      modifies this, stream
      ensures Valid() && Model() == M.FillWindow(old(Model()))
    {
      if !synSent {
        synSent := true;
        assert Model() == old(Model()).(synSent := true);
        SegmentHandler(SYN_SEGMENT);
        return;
      }
      if outstanding != [] && outstanding[0].header.syn {
        return;
      }
      if finSent {
        return;
      }
      window := if window == 0 then 1 else window;
      assert Model() == M.Widened(old(Model()));
      var edge: u32 := (rcvBase + window) % TWO_32;
      assert edge == M.Edge(Model());
      SendUpTo(edge);
    }

    /** Lines 49-55. */
    method SendFinAlone(edge: u32)
      requires Valid()
      modifies this
      ensures Valid() && Model() == M.FinAlone(old(Model()), edge)
    {
      var eof := stream.Eof();
      if eof && edge > nextSeqno {
        finSent := true;
        SegmentHandler(DataSegment([], true));
      }
    }

    /** Lines 49-71. */
    method SendUpTo(edge: u32)
      requires Valid()
      modifies this, stream
      ensures Valid() && Model() == M.SendAll(M.FinAlone(old(Model()), edge), edge)
    {
      SendFinAlone(edge);
      ghost var start := Model();
      var size := stream.BufferSize();
      while (edge - nextSeqno) % TWO_32 != 0 && !finSent && size != 0
        invariant Valid() && size == stream.Model().BufferSize()
        invariant M.SendAll(Model(), edge) == M.SendAll(start, edge)
        decreases size
      {
        var free := (edge - nextSeqno) % TWO_32;
        SendOne(if free > M.MAX_PAYLOAD_SIZE then M.MAX_PAYLOAD_SIZE else free);
        size := stream.BufferSize();
      }
    }

    /** The body of the sending loop, lines 58-69. */
    method SendOne(payloadSize: nat)
      requires Valid()
      modifies this, stream
      ensures Valid() && Model() == M.SendData(old(Model()), payloadSize)
    {
      var payload := stream.Read(payloadSize);
      var seg := DataSegment(payload, false);
      var eof := stream.Eof();
      if eof && seg.Length() < window {
        seg := DataSegment(payload, true);
        finSent := true;
      }
      SegmentHandler(seg);
    }

    method AckReceived(ackno: u32, win: u16)
      requires Valid()
      modifies this, stream
      ensures Valid() && Model() == M.AckReceived(old(Model()), ackno, win)
    {
      var ack := Unwrap(ackno, isn, rcvBase);
      if ack > nextSeqno {
        return;
      }
      window := win;
      backOff := window != 0;
      if ack <= rcvBase {
        return;
      }
      Advance(ack);
      FillWindow();
    }

    /** Lines 85-118. */
    method Advance(ack: u64)
      requires Valid()
      modifies this
      ensures Valid() && Model() == M.Advance(old(Model()), ack)
    {
      rcvBase := ack % TWO_32;
      assert Model() == old(Model()).(rcvBase := ack % TWO_32);
      var newData := Acknowledge(ack);
      Rearm(newData);
    }

    /** Lines 102-118. */
    method Rearm(newData: bool)
      requires Valid()
      modifies this
      ensures Valid() && Model() == M.Rearm(old(Model()), newData)
    {
      if newData {
        rto := initialRto;
        if outstanding != [] {
          elapsed := 0;
        }
        retransmissions := 0;
      }
      if outstanding == [] {
        timerRunning := false;
        elapsed := 0;
      }
    }

    /** Lines 87-101. */
    method Acknowledge(ack: u64) returns (newData: bool)
      requires Valid()
      modifies this`bytesInFlight, this`outstanding
      ensures Valid() && Model() == M.DropAcked(old(Model()), ack)
      ensures newData <==> |outstanding| < |old(outstanding)|
    {
      newData := false;
      while outstanding != []
        invariant Valid()
        invariant M.DropAcked(Model(), ack) == M.DropAcked(old(Model()), ack)
        invariant |outstanding| <= |old(outstanding)|
        invariant newData <==> |outstanding| < |old(outstanding)|
        decreases |outstanding|
      {
        var front := outstanding[0];
        var endOfFront: u32 := (Unwrap(front.header.seqno, isn, rcvBase) + front.Length()) % TWO_32;
        if ack >= endOfFront {
          ghost var m := Model();
          bytesInFlight := (bytesInFlight - front.Length()) % TWO_64;
          outstanding := outstanding[1..];
          newData := true;
          assert Model() == M.DropFront(m);
        } else {
          break;
        }
      }
    }

    method Tick(ms: nat)
      requires Valid() && (timerRunning ==> outstanding != [])
      modifies this
      ensures Valid() && Model() == M.Tick(old(Model()), ms)
    {
      if timerRunning {
        elapsed := (elapsed + ms) % TWO_32;
        if elapsed >= rto {
          segmentsOut := segmentsOut + [outstanding[0]];
          if backOff {
            rto := (rto * 2) % TWO_32;
            retransmissions := (retransmissions + 1) % TWO_32;
          }
          elapsed := 0;
        }
      }
    }

    method SendEmptySegment()
      requires Valid()
      modifies this`segmentsOut
      ensures Valid() && Model() == M.SendEmpty(old(Model()))
    {
      segmentsOut := segmentsOut + [EMPTY_SEGMENT.At(Wrap(nextSeqno, isn))];
    }
  }
}
