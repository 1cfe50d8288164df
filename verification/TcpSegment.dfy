/** TCP headers and segments as values, and the sequence space they cover (tcp_header.hh, tcp_segment.cc). */
module TcpSegment {
  import opened Numbers
  import opened WrappingIntegers

  datatype TcpHeader = TcpHeader(
    sport: u16, dport: u16, seqno: u32, ackno: u32, doff: byte,
    urg: bool, ack: bool, psh: bool, rst: bool, syn: bool, fin: bool,
    win: u16, cksum: u16, uptr: u16)

  const DEFAULT_HEADER := TcpHeader(0, 0, 0, 0, 5, false, false, false, false, false, false, 0, 0, 0)

  datatype Segment = Segment(header: TcpHeader, payload: seq<byte>) {
    /** TCPSegment::length_in_sequence_space: SYN and FIN count as one byte each. */
    function Length(): nat {
      |payload| + (if header.syn then 1 else 0) + (if header.fin then 1 else 0)
    }

    function At(seqno: u32): Segment { Segment(header.(seqno := seqno), payload) }
  }

  const EMPTY_SEGMENT := Segment(DEFAULT_HEADER, [])

  function DataSegment(payload: seq<byte>, fin: bool): Segment { Segment(DEFAULT_HEADER.(fin := fin), payload) }

  const SYN_SEGMENT := Segment(DEFAULT_HEADER.(syn := true), [])

  // ---- The sequence space of a stream: SYN, then its bytes, then FIN ----

  datatype Symbol = SYN | Data(b: byte) | FIN

  function Symbols(s: seq<byte>): (r: seq<Symbol>)
    ensures |r| == |s| && forall i :: 0 <= i < |s| ==> r[i] == Data(s[i])
  {
    seq(|s|, i requires 0 <= i < |s| => Data(s[i]))
  }

  /** The numbered symbols of a complete stream. */
  function SequenceSpace(s: seq<byte>): seq<Symbol> { [SYN] + Symbols(s) + [FIN] }

  /** The symbols a segment carries. */
  function Carried(seg: Segment): seq<Symbol> {
    (if seg.header.syn then [SYN] else []) + Symbols(seg.payload) + (if seg.header.fin then [FIN] else [])
  }

  /** Stream index of the first payload byte of a segment at absolute sequence number start. */
  function PayloadAt(seg: Segment, start: nat): int { start - 1 + (if seg.header.syn then 1 else 0) }

  /** The segment is the part of SYN, s, FIN that its own sequence number points at. */
  ghost predicate SliceAt(seg: Segment, isn: u32, s: seq<byte>, start: nat)
  {
    && start < TWO_64 && seg.header.seqno == Wrap(start, isn)
    && start + seg.Length() <= |s| + 2
    && (seg.header.syn <==> start == 0 && seg.Length() > 0)
    && (seg.payload != [] ==>
          var p := PayloadAt(seg, start);
          0 <= p && p + |seg.payload| <= |s| && s[p..p + |seg.payload|] == seg.payload)
    && (seg.header.fin ==> PayloadAt(seg, start) + |seg.payload| == |s|)
    && (!seg.header.fin && seg.Length() > 0 ==> start + seg.Length() <= |s| + 1)
  }

  lemma SliceCarries(seg: Segment, isn: u32, s: seq<byte>, start: nat)
    requires SliceAt(seg, isn, s, start)
    ensures Carried(seg) == SequenceSpace(s)[start..start + seg.Length()]
  {
    var c, w, p := Carried(seg), SequenceSpace(s), PayloadAt(seg, start);
    var k := if seg.header.syn then 1 else 0;
    assert |c| == seg.Length();
    forall i | 0 <= i < |c|
      ensures c[i] == w[start + i]
    {
      if k <= i < k + |seg.payload| {
        assert s[p..p + |seg.payload|][i - k] == s[p + i - k];
      }
    }
  }

  /** Where the symbols of a carried slice can lie. */
  lemma CarriedFlags(seg: Segment, s: seq<byte>, start: nat)
    requires start + seg.Length() <= |s| + 2
    requires Carried(seg) == SequenceSpace(s)[start..start + seg.Length()]
    ensures seg.header.syn <==> start == 0 && seg.Length() > 0
    ensures seg.header.fin <==> start + seg.Length() == |s| + 2 && seg.Length() > 0
  {
    var c, w := Carried(seg), SequenceSpace(s);
    var n := seg.Length();
    assert |c| == n;
    if n > 0 {
      assert c[0] == w[start] && c[n - 1] == w[start + n - 1];
      assert c[0] == SYN <==> seg.header.syn;
      assert c[n - 1] == FIN <==> seg.header.fin;
    }
  }

  lemma CarriedPayload(seg: Segment, s: seq<byte>, start: nat)
    requires start + seg.Length() <= |s| + 2 && seg.payload != []
    requires Carried(seg) == SequenceSpace(s)[start..start + seg.Length()]
    ensures var p := PayloadAt(seg, start);
            0 <= p && p + |seg.payload| <= |s| && s[p..p + |seg.payload|] == seg.payload
  {
    var c, w, p := Carried(seg), SequenceSpace(s), PayloadAt(seg, start);
    var k := if seg.header.syn then 1 else 0;
    CarriedFlags(seg, s, start);
    forall i | 0 <= i < |seg.payload|
      ensures s[p + i] == seg.payload[i]
    {
      assert c[k + i] == Data(seg.payload[i]) && c[k + i] == w[start + k + i];
    }
  }

  /** SliceAt says in parts what "a slice of the sequence space" says at once. */
  lemma SliceAtIsSlice(seg: Segment, isn: u32, s: seq<byte>, start: nat)
    requires start < TWO_64 && start + seg.Length() <= |s| + 2
    ensures SliceAt(seg, isn, s, start) <==>
            && seg.header.seqno == Wrap(start, isn)
            && Carried(seg) == SequenceSpace(s)[start..start + seg.Length()]
  {
    if SliceAt(seg, isn, s, start) {
      SliceCarries(seg, isn, s, start);
    }
    if seg.header.seqno == Wrap(start, isn) && Carried(seg) == SequenceSpace(s)[start..start + seg.Length()] {
      CarriedFlags(seg, s, start);
      if seg.payload != [] {
        CarriedPayload(seg, s, start);
      }
    }
  }
}
