/** IPv4 headers and datagrams (ipv4_header.cc, ipv4_datagram.cc), section 3.1 of RFC 791. */
module Ipv4 {
  import opened Numbers
  import opened Checksum
  import opened NetCodec
  import opened W = TcpWire

  const IP_LENGTH := 20
  const PROTO_TCP: byte := 6

  datatype IpHeader = IpHeader(
    ver: byte, hlen: byte, tos: byte, len: u16, id: u16, df: bool, mf: bool, offset: u16,
    ttl: byte, proto: byte, cksum: u16, src: u32, dst: u32)

  const DEFAULT_IP_HEADER := IpHeader(4, 5, 0, 0, 0, true, false, 0, 128, PROTO_TCP, 0, 0, 0)

  datatype Datagram = Datagram(header: IpHeader, payload: seq<byte>)

  function PayloadLength(h: IpHeader): u16 { (h.len - 4 * h.hlen) % TWO_16 }

  /** The pseudo-header's part of the TCP checksum. */
  function PseudoChecksum(h: IpHeader): u32 {
    h.src / TWO_16 + h.src % TWO_16 + h.dst / TWO_16 + h.dst % TWO_16 + h.proto + PayloadLength(h)
  }

  function Leading(h: IpHeader): seq<Field> {
    [Field(h.ver * 16 % 256 + h.hlen % 16, 1), Field(h.tos, 1), Field(h.len, 2), Field(h.id, 2),
     Field(Bit(h.df, 0x4000) + Bit(h.mf, 0x2000) + h.offset % 0x2000, 2), Field(h.ttl, 1), Field(h.proto, 1)]
  }

  function Trailing(h: IpHeader): seq<Field> { [Field(h.src, 4), Field(h.dst, 4)] }

  function IpFields(h: IpHeader): seq<Field> { Leading(h) + [Field(h.cksum, 2)] + Trailing(h) }

  const IP_WIDTHS: seq<nat> := [1, 1, 2, 2, 2, 1, 1, 2, 4, 4]

  /** IPv4Header::serialize; throws on another version or a header below five words. */
  function SerializeHeader(h: IpHeader): Thrown<seq<byte>> {
    if h.ver != 4 || 4 * h.hlen < IP_LENGTH then HeaderThrown
    else Returned(Encode(IpFields(h)) + Zeros(4 * h.hlen - IP_LENGTH))
  }

  function HeaderOf(v: seq<nat>): IpHeader
    requires |v| == 10
  {
    IpHeader(v[0] / 16 % 256, v[0] % 16, v[1] % 256, v[2] % TWO_16, v[3] % TWO_16,
             HasBit(v[4], 0x4000), HasBit(v[4], 0x2000), v[4] % 0x2000,
             v[5] % 256, v[6] % 256, v[7] % TWO_16, v[8] % TWO_32, v[9] % TWO_32)
  }

  /** IPv4Header::parse on a default header: header, parser afterwards, result. */
  function ParseHeader(p: Parser): (IpHeader, Parser, ParseResult) {
    if |p.buffer| < IP_LENGTH then (DEFAULT_IP_HEADER, p, PacketTooShort)
    else
      var (v, q) := TakeInts(p, IP_WIDTHS);
      var h := HeaderOf(v);
      (h, SkipOptions(h, p.buffer, q), Judge(h, p.buffer, q))
  }

  /** The header's own checks, apart from its checksum, on a datagram of the given size. */
  predicate Consistent(h: IpHeader, size: nat) {
    4 * h.hlen <= size && h.ver == 4 && h.hlen >= 5 && size == h.len
  }

  /** The parser after the header: options are skipped once the checks of lines 49-60 are passed. */
  function SkipOptions(h: IpHeader, buffer: seq<byte>, q: Parser): Parser {
    if Consistent(h, |buffer|) then DropBytes(q, h.hlen * 4 - IP_LENGTH) else q
  }

  /** The result, lines 49-74. */
  function Judge(h: IpHeader, buffer: seq<byte>, q: Parser): ParseResult {
    if |buffer| < 4 * h.hlen then PacketTooShort
    else if h.ver != 4 then WrongIPVersion
    else if h.hlen < 5 then HeaderTooShort
    else if |buffer| != h.len then TruncatedPacket
    else if SkipOptions(h, buffer, q).error != NoError then SkipOptions(h, buffer, q).error
    else if Complement(ByteSum(buffer[..4 * h.hlen], false) % TWO_32) != 0 then BadChecksum
    else NoError
  }

  /** IPv4Datagram::serialize: throws if the payload is not as long as the header says. */
  function SerializeDatagram(d: Datagram): Thrown<seq<byte>> {
    if |d.payload| != PayloadLength(d.header) then PayloadThrown
    else
      match SerializeHeader(d.header.(cksum := 0))
      case Returned(zeroed) =>
        var c := Complement(ByteSum(zeroed, false) % TWO_32);
        (match SerializeHeader(d.header.(cksum := c))
         case Returned(filled) => Returned(filled + d.payload)
         case other => other)
      case other => other
  }

  /** IPv4Datagram::parse: again, the header parser's own result is not looked at. */
  function ParseDatagram(buffer: seq<byte>): Result<Datagram> {
    var (h, q, _) := ParseHeader(Parser(buffer, NoError));
    if |q.buffer| != PayloadLength(h) then Failed(PacketTooShort)
    else if q.error != NoError then Failed(q.error)
    else Ok(Datagram(h, q.buffer))
  }

  // ---- Round trips ----

  /** A header that the wire format can carry, for a payload of the given size. */
  ghost predicate Sendable(h: IpHeader, payload: nat) {
    && h.ver == 4 && 5 <= h.hlen <= 15 && h.offset < 0x2000
    && 4 * h.hlen + payload == h.len
  }

  lemma {:induction false} EncodedSize(fs: seq<Field>, n: nat)
    requires |fs| == n
    ensures n == 0 ==> |Encode(fs)| == 0
    ensures n == 1 ==> |Encode(fs)| == fs[0].width
    ensures n == 2 ==> |Encode(fs)| == fs[0].width + fs[1].width
  {
    if n == 2 {
      EncodedSize(fs[1..], 1);
    }
  }

  lemma LeadingSize(h: IpHeader)
    ensures |Encode(Leading(h))| == 10
  {
    var l := Leading(h);
    EncodeAppend(l[..2], l[2..]);
    EncodeAppend(l[2..4], l[4..]);
    EncodeAppend(l[4..6], l[6..]);
    assert l == l[..2] + l[2..] && l[2..] == l[2..4] + l[4..] && l[4..] == l[4..6] + l[6..];
    EncodedSize(l[..2], 2);
    EncodedSize(l[2..4], 2);
    EncodedSize(l[4..6], 2);
    EncodedSize(l[6..], 1);
  }

  lemma SerializedSize(h: IpHeader)
    requires h.ver == 4 && h.hlen >= 5
    ensures |SerializeHeader(h).value| == 4 * h.hlen
  {
    LeadingSize(h);
    EncodedSize(Trailing(h), 2);
    SumWithField(Leading(h), h.cksum, Trailing(h));
  }

  lemma FieldsFit(h: IpHeader)
    ensures forall i :: 0 <= i < |IpFields(h)| ==> IpFields(h)[i].Fits()
  {
    SmallPowers();
  }

  lemma FragmentRoundTrip(df: bool, mf: bool, offset: u16)
    requires offset < 0x2000
    ensures var v := Bit(df, 0x4000) + Bit(mf, 0x2000) + offset % 0x2000;
            HasBit(v, 0x4000) == df && HasBit(v, 0x2000) == mf && v % 0x2000 == offset
  {
  }

  lemma HeaderOfFields(h: IpHeader)
    requires h.ver == 4 && h.hlen <= 15 && h.offset < 0x2000
    ensures Widths(IpFields(h)) == IP_WIDTHS && HeaderOf(Values(IpFields(h))) == h
  {
    FragmentRoundTrip(h.df, h.mf, h.offset);
  }

  /** Filling in the checksum adds exactly its value to the sum. */
  lemma FilledHeaderSum(h: IpHeader, c: u16)
    requires h.ver == 4 && h.hlen >= 5
    ensures ByteSum(SerializeHeader(h.(cksum := c)).value, false)
            == ByteSum(SerializeHeader(h.(cksum := 0)).value, false) + c
  {
    FieldsWith(h, c);
    FieldsWith(h, 0);
    SumsDiffer(Encode(IpFields(h.(cksum := c))), Encode(IpFields(h.(cksum := 0))), Zeros(4 * h.hlen - IP_LENGTH), c);
  }

  lemma FieldsWith(h: IpHeader, c: u16)
    ensures var x, l, t := Encode(IpFields(h.(cksum := c))), Encode(Leading(h)), Encode(Trailing(h));
            |x| == |l| + 2 + |t| && ByteSum(x, false) == ByteSum(l, false) + c + ByteSum(t, false)
  {
    var f := h.(cksum := c);
    LeadingSize(h);
    SumWithField(Leading(h), c, Trailing(h));
    assert Leading(f) == Leading(h) && Trailing(f) == Trailing(h);
  }

  lemma HeaderSumFits(h: IpHeader)
    requires h.ver == 4 && 5 <= h.hlen <= 15
    ensures var s := ByteSum(SerializeHeader(h).value, false); s % TWO_32 == s
  {
    SerializedSize(h);
    ByteSumBound(SerializeHeader(h).value, false);
  }

  /** The checksum of a filled-in header is accepted. */
  lemma HeaderAccepted(h: IpHeader)
    requires h.ver == 4 && 5 <= h.hlen <= 15
    ensures var c := Complement(ByteSum(SerializeHeader(h.(cksum := 0)).value, false) % TWO_32);
            Complement(ByteSum(SerializeHeader(h.(cksum := c)).value, false) % TWO_32) == 0
  {
    HeaderSumFits(h.(cksum := 0));
    var s := ByteSum(SerializeHeader(h.(cksum := 0)).value, false);
    HeaderSumFits(h.(cksum := Complement(s)));
    FilledHeaderSum(h, Complement(s));
    FilledInIsAccepted(s);
  }

  lemma FieldsParse(h: IpHeader, rest: seq<byte>)
    requires h.ver == 4 && h.hlen <= 15 && h.offset < 0x2000
    ensures TakeInts(Parser(Encode(IpFields(h)) + rest, NoError), IP_WIDTHS)
            == (Values(IpFields(h)), Parser(rest, NoError))
    ensures HeaderOf(Values(IpFields(h))) == h
  {
    FieldsFit(h);
    HeaderOfFields(h);
    ParseEncoded(IpFields(h), rest);
  }

  /** Parsing a serialized header gives it back and leaves the payload; the checksum decides only the result. */
  lemma HeaderParsed(h: IpHeader, payload: seq<byte>)
    requires Sendable(h, |payload|)
    ensures ParseHeader(Parser(SerializeHeader(h).value + payload, NoError))
            == (h, Parser(payload, NoError),
                if Complement(ByteSum(SerializeHeader(h).value, false) % TWO_32) == 0 then NoError else BadChecksum)
  {
    var bytes := SerializeHeader(h).value;
    var rest := Zeros(4 * h.hlen - IP_LENGTH) + payload;
    SerializedSize(h);
    assert bytes + payload == Encode(IpFields(h)) + rest;
    FieldsParse(h, rest);
    SendableIsJudged(h, bytes, payload);
  }

  lemma SendableIsJudged(h: IpHeader, bytes: seq<byte>, payload: seq<byte>)
    requires Sendable(h, |payload|) && |bytes| == 4 * h.hlen
    ensures var q := Parser(Zeros(4 * h.hlen - IP_LENGTH) + payload, NoError);
            && SkipOptions(h, bytes + payload, q) == Parser(payload, NoError)
            && Judge(h, bytes + payload, q)
               == if Complement(ByteSum(bytes, false) % TWO_32) == 0 then NoError else BadChecksum
  {
    SkipPadding(4 * h.hlen - IP_LENGTH, payload);
    assert (bytes + payload)[..4 * h.hlen] == bytes;
  }

  /** Parsing a serialized, filled-in header succeeds and leaves the payload. */
  lemma HeaderRoundTrip(h: IpHeader, payload: seq<byte>)
    requires Sendable(h, |payload|)
    requires Complement(ByteSum(SerializeHeader(h).value, false) % TWO_32) == 0
    ensures ParseHeader(Parser(SerializeHeader(h).value + payload, NoError)) == (h, Parser(payload, NoError), NoError)
  {
    HeaderParsed(h, payload);
  }

  lemma PayloadLengthExact(h: IpHeader, payload: nat)
    requires Sendable(h, payload)
    ensures PayloadLength(h) == payload
  {
  }

  lemma DatagramRoundTrip(d: Datagram)
    requires Sendable(d.header, |d.payload|)
    ensures var out := SerializeDatagram(d);
            && out.Returned?
            && var back := ParseDatagram(out.value);
               back.Ok? && back.value == d.(header := d.header.(cksum := back.value.header.cksum))
  {
    var c := Complement(ByteSum(SerializeHeader(d.header.(cksum := 0)).value, false) % TWO_32);
    var h := d.header.(cksum := c);
    PayloadLengthExact(d.header, |d.payload|);
    PayloadLengthExact(h, |d.payload|);
    HeaderAccepted(d.header);
    HeaderRoundTrip(h, d.payload);
    assert SerializeDatagram(d) == Returned(SerializeHeader(h).value + d.payload);
  }

  // ---- Where the fields are ----

  /** The header's fields lie at the bytes that section 3.1 of RFC 791 gives them, high byte first. */
  ghost predicate IpLayout(b: seq<byte>, h: IpHeader)
    requires |b| >= IP_LENGTH
  {
    && h.ver == b[0] / 16 && h.hlen == b[0] % 16 && h.tos == b[1]
    && h.len == NumberAt(b, 2, 2) && h.id == NumberAt(b, 4, 2)
    && h.df == HasBit(NumberAt(b, 6, 2), 0x4000) && h.mf == HasBit(NumberAt(b, 6, 2), 0x2000)
    && h.offset == NumberAt(b, 6, 2) % 0x2000
    && h.ttl == b[8] && h.proto == b[9] && h.cksum == NumberAt(b, 10, 2)
    && h.src == NumberAt(b, 12, 4) && h.dst == NumberAt(b, 16, 4)
  }

  lemma IpOffsets()
    ensures OffsetOf(IP_WIDTHS, 0) == 0 && OffsetOf(IP_WIDTHS, 1) == 1 && OffsetOf(IP_WIDTHS, 2) == 2
    ensures OffsetOf(IP_WIDTHS, 3) == 4 && OffsetOf(IP_WIDTHS, 4) == 6 && OffsetOf(IP_WIDTHS, 5) == 8
    ensures OffsetOf(IP_WIDTHS, 6) == 9 && OffsetOf(IP_WIDTHS, 7) == 10 && OffsetOf(IP_WIDTHS, 8) == 12
    ensures OffsetOf(IP_WIDTHS, 9) == 16 && OffsetOf(IP_WIDTHS, 10) == 20
  {
    assert OffsetOf(IP_WIDTHS, 2) == 2;
    assert OffsetOf(IP_WIDTHS, 4) == 6;
    assert OffsetOf(IP_WIDTHS, 6) == 9;
    assert OffsetOf(IP_WIDTHS, 8) == 12;
  }

  lemma IpTotal()
    ensures Total(IP_WIDTHS) == IP_LENGTH
  {
    IpOffsets();
    TotalIsOffset(IP_WIDTHS);
  }

  lemma IpInteger(b: seq<byte>, k: nat, off: nat, w: nat)
    requires |b| >= IP_LENGTH && k < 10 && off == OffsetOf(IP_WIDTHS, k) && w == IP_WIDTHS[k]
    ensures off + w <= |b| && TakeInts(Parser(b, NoError), IP_WIDTHS).0[k] == NumberAt(b, off, w) < Pow256(w)
  {
    IpOffsets();
    IntegerAt(b, IP_WIDTHS, k);
    NumberFits(b, off, w);
  }

  lemma FirstIntegers(b: seq<byte>, v: seq<nat>)
    requires |b| >= IP_LENGTH && v == TakeInts(Parser(b, NoError), IP_WIDTHS).0
    ensures v[0] == b[0] && v[1] == b[1] && v[2] == NumberAt(b, 2, 2) < Pow256(2)
    ensures v[3] == NumberAt(b, 4, 2) < Pow256(2) && v[4] == NumberAt(b, 6, 2) < Pow256(2)
  {
    IpOffsets();
    IpInteger(b, 0, 0, 1);
    IpInteger(b, 1, 1, 1);
    IpInteger(b, 2, 2, 2);
    IpInteger(b, 3, 4, 2);
    IpInteger(b, 4, 6, 2);
    OneByte(b, 0);
    OneByte(b, 1);
  }

  lemma LastIntegers(b: seq<byte>, v: seq<nat>)
    requires |b| >= IP_LENGTH && v == TakeInts(Parser(b, NoError), IP_WIDTHS).0
    ensures v[5] == b[8] && v[6] == b[9] && v[7] == NumberAt(b, 10, 2) < Pow256(2)
    ensures v[8] == NumberAt(b, 12, 4) < Pow256(4) && v[9] == NumberAt(b, 16, 4) < Pow256(4)
  {
    IpOffsets();
    IpInteger(b, 5, 8, 1);
    IpInteger(b, 6, 9, 1);
    IpInteger(b, 7, 10, 2);
    IpInteger(b, 8, 12, 4);
    IpInteger(b, 9, 16, 4);
    OneByte(b, 8);
    OneByte(b, 9);
  }

  lemma HeaderFields(v: seq<nat>)
    requires |v| == 10 && v[0] < 256 && v[1] < 256 && v[2] < TWO_16 && v[3] < TWO_16 && v[5] < 256 && v[6] < 256
    requires v[7] < TWO_16 && v[8] < TWO_32 && v[9] < TWO_32
    ensures var h := HeaderOf(v);
            && h.ver == v[0] / 16 && h.hlen == v[0] % 16 && h.tos == v[1] && h.len == v[2] && h.id == v[3]
            && h.ttl == v[5] && h.proto == v[6] && h.cksum == v[7] && h.src == v[8] && h.dst == v[9]
  {
  }

  /** Every input of at least twenty bytes is read by that layout. */
  lemma ParsesByLayout(b: seq<byte>)
    requires |b| >= IP_LENGTH
    ensures IpLayout(b, ParseHeader(Parser(b, NoError)).0)
  {
    var v := TakeInts(Parser(b, NoError), IP_WIDTHS).0;
    SmallPowers();
    FirstIntegers(b, v);
    LastIntegers(b, v);
    HeaderFields(v);
  }

  /** Every header that can be sent is written by that layout. */
  lemma SerializesByLayout(h: IpHeader)
    requires h.ver == 4 && 5 <= h.hlen <= 15 && h.offset < 0x2000 && 4 * h.hlen <= h.len
    ensures |SerializeHeader(h).value| == 4 * h.hlen && IpLayout(SerializeHeader(h).value, h)
  {
    var b, payload := SerializeHeader(h).value, Zeros(h.len - 4 * h.hlen);
    SerializedSize(h);
    HeaderParsed(h, payload);
    ParsesByLayout(b + payload);
    SameBytes(b, payload, h);
  }

  lemma SameBytes(b: seq<byte>, rest: seq<byte>, h: IpHeader)
    requires |b| >= IP_LENGTH && IpLayout(b + rest, h)
    ensures IpLayout(b, h)
  {
    var c := b + rest;
    forall off: nat, w: nat | off + w <= |b|
      ensures NumberAt(c, off, w) == NumberAt(b, off, w)
    {
      assert b[off..off + w] == c[off..off + w];
    }
  }

  // ---- The pseudo-header ----

  /** The twelve bytes of the pseudo-header: source, destination, zero, protocol, payload length. */
  function PseudoHeader(h: IpHeader): seq<byte> {
    Unparse(h.src, 4) + (Unparse(h.dst, 4) + ([0, h.proto] + Unparse(PayloadLength(h), 2)))
  }

  lemma LongSum(v: u32)
    ensures |Unparse(v, 4)| == 4 && ByteSum(Unparse(v, 4), false) == v / TWO_16 + v % TWO_16
  {
    var hi, lo := v / TWO_16, v % TWO_16;
    SplitLong(v);
    ByteSumAppend(Unparse(hi, 2), Unparse(lo, 2), false);
    WordSum(hi);
    WordSum(lo);
  }

  lemma SplitLong(v: u32)
    ensures Unparse(v, 4) == Unparse(v / TWO_16, 2) + Unparse(v % TWO_16, 2)
  {
    var lo := v % TWO_16;
    Digits(v);
    assert Unparse(v, 4) == Unparse(v / 256, 3) + [v % 256];
    assert Unparse(v / 256, 3) == Unparse(v / 256 / 256, 2) + [v / 256 % 256];
    assert Unparse(lo, 2) == Unparse(lo / 256, 1) + [lo % 256];
    assert Unparse(lo / 256, 1) == [] + [lo / 256 % 256];
  }

  lemma Digits(v: u32)
    ensures v / 256 / 256 == v / TWO_16 && v % TWO_16 % 256 == v % 256
    ensures v % TWO_16 / 256 % 256 == v / 256 % 256
  {
  }

  /** pseudo_cksum is the sum of the pseudo-header that section 3.1 of RFC 793 puts in front of a segment. */
  lemma PseudoIsByteSum(h: IpHeader)
    ensures |PseudoHeader(h)| == 12 && PseudoChecksum(h) == ByteSum(PseudoHeader(h), false)
  {
    var tail := [0, h.proto] + Unparse(PayloadLength(h), 2);
    LongSum(h.src);
    LongSum(h.dst);
    ByteSumAppend(Unparse(h.src, 4), Unparse(h.dst, 4) + tail, false);
    ByteSumAppend(Unparse(h.dst, 4), tail, false);
    ByteSumAppend([0, h.proto], Unparse(PayloadLength(h), 2), false);
    PairSum(0, h.proto);
    WordSum(PayloadLength(h));
  }

  // ---- What is accepted ----

  /** What the header parser leaves of twenty bytes or more, whatever it reports. */
  lemma SkipsRest(h: IpHeader, b: seq<byte>)
    requires |b| >= IP_LENGTH
    ensures SkipOptions(h, b, Parser(b[IP_LENGTH..], NoError))
            == Parser(if Consistent(h, |b|) then b[4 * h.hlen..] else b[IP_LENGTH..], NoError)
  {
    if Consistent(h, |b|) {
      DropRest(b, 4 * h.hlen);
    }
  }

  lemma LeftIsPayloadIff(h: IpHeader, b: seq<byte>)
    requires |b| >= IP_LENGTH
    ensures |SkipOptions(h, b, Parser(b[IP_LENGTH..], NoError)).buffer| == PayloadLength(h)
            <==> Consistent(h, |b|) || |b| - IP_LENGTH == PayloadLength(h)
  {
    SkipsRest(h, b);
  }

  lemma DropRest(b: seq<byte>, n: nat)
    requires IP_LENGTH <= n <= |b|
    ensures DropBytes(Parser(b[IP_LENGTH..], NoError), n - IP_LENGTH) == Parser(b[n..], NoError)
  {
    assert b[IP_LENGTH..][n - IP_LENGTH..] == b[n..];
  }

  /**
   * Exactly which inputs are taken for a datagram: twenty bytes that read as a consistent header, whatever the
   * checksum; or as an inconsistent one, if the length field happens to give what follows the twenty bytes.
   */
  lemma DatagramAcceptedIff(b: seq<byte>)
    ensures ParseDatagram(b).Ok? <==>
            && |b| >= IP_LENGTH
            && var h := HeaderOf(TakeInts(Parser(b, NoError), IP_WIDTHS).0);
               Consistent(h, |b|) || |b| - IP_LENGTH == PayloadLength(h)
  {
    if |b| >= IP_LENGTH {
      IpTotal();
      TakeIntsConsumes(Parser(b, NoError), IP_WIDTHS);
      var h := HeaderOf(TakeInts(Parser(b, NoError), IP_WIDTHS).0);
      SkipsRest(h, b);
      LeftIsPayloadIff(h, b);
    }
  }

  /** A datagram is taken, and read as it was sent, whatever its header's checksum; a wrong one is only reported. */
  lemma WrongChecksumIsAccepted(h: IpHeader, payload: seq<byte>)
    requires Sendable(h, |payload|)
    ensures var b := SerializeHeader(h).value + payload;
            && ParseDatagram(b) == Ok(Datagram(h, payload))
            && (ParseHeader(Parser(b, NoError)).2 == BadChecksum
                <==> Complement(ByteSum(SerializeHeader(h).value, false) % TWO_32) != 0)
  {
    HeaderParsed(h, payload);
    PayloadLengthExact(h, |payload|);
  }

  /** For instance, a default header for an empty payload, with a checksum of zero. */
  lemma ZeroChecksumIsAccepted()
    ensures var h := DEFAULT_IP_HEADER.(len := 20);
            && ParseDatagram(SerializeHeader(h).value) == Ok(Datagram(h, []))
            && ParseHeader(Parser(SerializeHeader(h).value, NoError)).2 == BadChecksum
  {
    var h := DEFAULT_IP_HEADER.(len := 20);
    WrongChecksumIsAccepted(h, []);
    assert SerializeHeader(h).value + [] == SerializeHeader(h).value;
    DefaultSum(h);
  }

  lemma PairSum(hi: byte, lo: byte)
    ensures Encode([Field(hi, 1), Field(lo, 1)]) == [hi, lo] && ByteSum([hi, lo], false) == 256 * hi + lo
  {
    assert Unparse(hi, 1) == [hi] && Unparse(lo, 1) == [lo];
    assert Encode([Field(lo, 1)]) == [lo] + Encode([]) == [lo];
    assert [Field(hi, 1), Field(lo, 1)][1..] == [Field(lo, 1)];
    assert [hi, lo][1..] == [lo] && ByteSum([lo], true) == lo;
  }

  lemma NoAddresses()
    ensures ByteSum(Encode([Field(0, 4), Field(0, 4)]), false) == 0
  {
    assert Unparse(0, 4) == Zeros(4);
    assert Encode([Field(0, 4)]) == Unparse(0, 4) + Encode([]) == Zeros(4);
    assert [Field(0, 4), Field(0, 4)][1..] == [Field(0, 4)];
    assert Encode([Field(0, 4), Field(0, 4)]) == Zeros(4) + Zeros(4) == Zeros(8);
    ZerosSum(8, false);
  }

  /** The fields of a default header after its length. */
  function DefaultTail(): seq<Field> {
    [Field(0x4000, 2)] + ([Field(128, 1), Field(6, 1)] + [Field(0, 2)] + [Field(0, 4), Field(0, 4)])
  }

  lemma DefaultTailSum()
    ensures ByteSum(Encode(DefaultTail()), false) == 0x4000 + 0x8006
  {
    PairSum(128, 6);
    NoAddresses();
    var last := [Field(128, 1), Field(6, 1)] + [Field(0, 2)] + [Field(0, 4), Field(0, 4)];
    SumWithField([Field(128, 1), Field(6, 1)], 0, [Field(0, 4), Field(0, 4)]);
    SumWithField([], 0x4000, last);
    assert [] + [Field(0x4000, 2)] + last == DefaultTail();
  }

  lemma DefaultFieldsSum()
    ensures ByteSum(Encode([Field(0x45, 1), Field(0, 1)] + [Field(20, 2)] + ([Field(0, 2)] + DefaultTail())), false)
            == 0x1051a
  {
    PairSum(0x45, 0);
    DefaultTailSum();
    SumWithField([], 0, DefaultTail());
    assert [] + [Field(0, 2)] + DefaultTail() == [Field(0, 2)] + DefaultTail();
    SumWithField([Field(0x45, 1), Field(0, 1)], 20, [Field(0, 2)] + DefaultTail());
  }

  lemma DefaultSum(h: IpHeader)
    requires h == DEFAULT_IP_HEADER.(len := 20)
    ensures Complement(ByteSum(SerializeHeader(h).value, false) % TWO_32) != 0
  {
    DefaultFieldsSum();
    assert IpFields(h) == [Field(0x45, 1), Field(0, 1)] + [Field(20, 2)] + ([Field(0, 2)] + DefaultTail());
    assert SerializeHeader(h).value == Encode(IpFields(h)) + Zeros(0) == Encode(IpFields(h));
    ValueZeroIff(0x1051a);
  }
}
