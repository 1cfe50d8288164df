/** TCP segments inside IPv4 datagrams (tcp_over_ip.cc). */
module TcpOverIp {
  import opened Numbers
  import opened TcpSegment
  import opened Options
  import opened Checksum
  import opened NetCodec
  import W = TcpWire
  import IP = Ipv4

  datatype Address = Address(ip: u32, port: u16)

  datatype Config = Config(source: Address, destination: Address) {
    /** The peer's view of the same connection. */
    function Mirror(): Config { Config(destination, source) }
  }

  function WithPorts(cfg: Config, seg: Segment): Segment {
    seg.(header := seg.header.(sport := cfg.source.port, dport := cfg.destination.port))
  }

  /** The two segments differ in nothing but their checksum field. */
  predicate SameButChecksum(x: Segment, y: Segment) { x == y.(header := y.header.(cksum := x.header.cksum)) }

  function IpHeaderFor(cfg: Config, seg: Segment): IP.IpHeader {
    var h := IP.DEFAULT_IP_HEADER;
    h.(src := cfg.source.ip, dst := cfg.destination.ip,
       len := (h.hlen * 4 + seg.header.doff * 4 + |seg.payload|) % TWO_16)
  }

  /** The bytes that wrapping puts into the datagram. */
  function Bytes(cfg: Config, seg: Segment): W.Thrown<seq<byte>> {
    W.SerializeSegment(WithPorts(cfg, seg), IP.PseudoChecksum(IpHeaderFor(cfg, seg)))
  }

  /** wrap_tcp_in_ip; throws when the segment's header is too short. */
  function WrapTcpInIp(cfg: Config, seg: Segment): W.Thrown<IP.Datagram> {
    match Bytes(cfg, seg)
    case Returned(bytes) => W.Returned(IP.Datagram(IpHeaderFor(cfg, seg), bytes))
    case HeaderThrown => W.HeaderThrown
    case PayloadThrown => W.PayloadThrown
  }

  /** unwrap_tcp_in_ip on a connection that is no longer listening. */
  function UnwrapTcpInIp(cfg: Config, d: IP.Datagram): Option<Segment> {
    if d.header.dst != cfg.source.ip then None
    else if d.header.src != cfg.destination.ip then None
    else if d.header.proto != IP.PROTO_TCP then None
    else
      match W.ParseSegment(d.payload, IP.PseudoChecksum(d.header))
      case Failed(_) => None
      case Ok(seg) =>
        if seg.header.dport != cfg.source.port then None
        else if seg.header.sport != cfg.destination.port then None
        else Some(seg)
  }

  lemma PseudoFits(h: IP.IpHeader)
    ensures IP.PseudoChecksum(h) <= 6 * 0xffff
  {
  }

  lemma PseudoIgnoresChecksum(h: IP.IpHeader, c: u16)
    ensures IP.PseudoChecksum(h.(cksum := c)) == IP.PseudoChecksum(h)
  {
  }

  lemma LengthExact(cfg: Config, seg: Segment)
    requires 20 + 4 * seg.header.doff + |seg.payload| <= 0xffff
    ensures IpHeaderFor(cfg, seg).len == 20 + 4 * seg.header.doff + |seg.payload|
  {
  }

  lemma BytesRoundTrip(cfg: Config, seg: Segment)
    requires 5 <= seg.header.doff <= 15 && 20 + 4 * seg.header.doff + |seg.payload| <= 0xffff
    ensures var b := Bytes(cfg, seg);
            && b.Returned? && |b.value| == 4 * seg.header.doff + |seg.payload|
            && var back := W.ParseSegment(b.value, IP.PseudoChecksum(IpHeaderFor(cfg, seg)));
               && back.Ok?
               && SameButChecksum(back.value, WithPorts(cfg, seg))
  {
    var h := IpHeaderFor(cfg, seg);
    PseudoFits(h);
    W.SegmentRoundTrip(WithPorts(cfg, seg), IP.PseudoChecksum(h));
  }

  lemma WrappedIsSendable(cfg: Config, seg: Segment)
    requires 5 <= seg.header.doff <= 15 && 20 + 4 * seg.header.doff + |seg.payload| <= 0xffff
    ensures var w := WrapTcpInIp(cfg, seg);
            w.Returned? && w.value.header == IpHeaderFor(cfg, seg) && IP.Sendable(w.value.header, |w.value.payload|)
  {
    BytesRoundTrip(cfg, seg);
    LengthExact(cfg, seg);
  }

  /** At the mirrored endpoint the datagram is taken apart again; the IP checksum plays no part in that. */
  lemma UnwrapInvertsWrap(cfg: Config, seg: Segment, c: u16)
    requires 5 <= seg.header.doff <= 15 && 20 + 4 * seg.header.doff + |seg.payload| <= 0xffff
    requires WrapTcpInIp(cfg, seg).Returned?
    ensures var d := WrapTcpInIp(cfg, seg).value;
            var back := UnwrapTcpInIp(cfg.Mirror(), d.(header := d.header.(cksum := c)));
            && back.Some?
            && SameButChecksum(back.value, WithPorts(cfg, seg))
  {
    BytesRoundTrip(cfg, seg);
    PseudoIgnoresChecksum(IpHeaderFor(cfg, seg), c);
  }

  /**
   * Round trip: a segment that fits one datagram, wrapped, serialized, parsed and unwrapped at the
   * other end of the connection, comes back with the same fields and payload (ports set, checksum filled in).
   */
  lemma WireRoundTrip(cfg: Config, seg: Segment)
    requires 5 <= seg.header.doff <= 15 && 20 + 4 * seg.header.doff + |seg.payload| <= 0xffff
    ensures WrapTcpInIp(cfg, seg).Returned?
    ensures var wire := IP.SerializeDatagram(WrapTcpInIp(cfg, seg).value);
            && wire.Returned?
            && var d := IP.ParseDatagram(wire.value);
               && d.Ok?
               && var back := UnwrapTcpInIp(cfg.Mirror(), d.value);
                  && back.Some?
                  && SameButChecksum(back.value, WithPorts(cfg, seg))
  {
    WrappedIsSendable(cfg, seg);
    var sent := WrapTcpInIp(cfg, seg).value;
    IP.DatagramRoundTrip(sent);
    var got := IP.ParseDatagram(IP.SerializeDatagram(sent).value).value;
    UnwrapInvertsWrap(cfg, seg, got.header.cksum);
  }

  /**
   * Exactly which datagrams are taken: they go from the peer's address and port to this side's, say they carry
   * TCP, and carry an acceptable segment; all read off their bytes.
   */
  lemma UnwrapTakesIff(cfg: Config, d: IP.Datagram)
    ensures UnwrapTcpInIp(cfg, d).Some? <==>
            && d.header.src == cfg.destination.ip && d.header.dst == cfg.source.ip && d.header.proto == 6
            && var b := d.payload;
               && Complement(W.SegmentSum(IP.PseudoChecksum(d.header), b)) == 0
               && |b| >= 20 && (b[12] / 16 < 5 || 4 * (b[12] / 16) <= |b|)
               && NumberAt(b, 0, 2) == cfg.destination.port && NumberAt(b, 2, 2) == cfg.source.port
  {
    var b := d.payload;
    W.SegmentAcceptedIff(b, IP.PseudoChecksum(d.header));
    if |b| >= 20 {
      W.ParsesByLayout(b);
    }
  }
}
