/** TCP headers and segments on the wire (tcp_header.cc, tcp_segment.cc), section 3.1 of RFC 793. */
module TcpWire {
  import opened Numbers
  import opened Checksum
  import opened NetCodec
  import opened TcpSegment

  const TCP_LENGTH := 20

  datatype Result<T> = Ok(value: T) | Failed(error: ParseResult)

  datatype Thrown<T> = Returned(value: T) | HeaderThrown | PayloadThrown

  function Bit(b: bool, weight: nat): nat { if b then weight else 0 }

  function Flags(h: TcpHeader): byte {
    Bit(h.urg, 32) + Bit(h.ack, 16) + Bit(h.psh, 8) + Bit(h.rst, 4) + Bit(h.syn, 2) + Bit(h.fin, 1)
  }

  predicate HasBit(b: nat, weight: nat)
    requires weight > 0
  {
    b / weight % 2 == 1
  }

  /** The header's fields up to the checksum. */
  function Leading(h: TcpHeader): seq<Field> {
    [Field(h.sport, 2), Field(h.dport, 2), Field(h.seqno, 4), Field(h.ackno, 4),
     Field(h.doff * 16 % 256, 1), Field(Flags(h), 1), Field(h.win, 2)]
  }

  function TcpFields(h: TcpHeader): seq<Field> {
    Leading(h) + [Field(h.cksum, 2)] + [Field(h.uptr, 2)]
  }

  const TCP_WIDTHS: seq<nat> := [2, 2, 4, 4, 1, 1, 2, 2, 2]

  /** TCPHeader::serialize; a header shorter than five words throws. */
  function SerializeHeader(h: TcpHeader): Thrown<seq<byte>> {
    if h.doff < 5 then HeaderThrown
    else Returned(Encode(TcpFields(h)) + Zeros(4 * h.doff - TCP_LENGTH))
  }

  function HeaderOf(v: seq<nat>): TcpHeader
    requires |v| == 9
  {
    TcpHeader(v[0] % TWO_16, v[1] % TWO_16, v[2] % TWO_32, v[3] % TWO_32, v[4] / 16 % 256,
              HasBit(v[5], 32), HasBit(v[5], 16), HasBit(v[5], 8), HasBit(v[5], 4), HasBit(v[5], 2), HasBit(v[5], 1),
              v[6] % TWO_16, v[7] % TWO_16, v[8] % TWO_16)
  }

  /** TCPHeader::parse: the header, the parser afterwards, and the result that the caller may ignore. */
  function ParseHeader(p: Parser): (TcpHeader, Parser, ParseResult) {
    var (v, q) := TakeInts(p, TCP_WIDTHS);
    var h := HeaderOf(v);
    var t := SkipOptions(h.doff, q);
    (h, t, if h.doff < 5 then HeaderTooShort else t.error)
  }

  /** Skip what the data offset says lies between the fixed fields and the payload. */
  function SkipOptions(doff: byte, q: Parser): Parser {
    if doff < 5 then q else DropBytes(q, doff * 4 - TCP_LENGTH)
  }

  /** The same with a parser object that is consumed along the way. */
  method ParseHeaderFrom(p: NetParser) returns (h: TcpHeader, r: ParseResult)
    modifies p
    ensures (h, p.Model(), r) == ParseHeader(old(p.Model()))
  {
    var v := p.ParseInts(TCP_WIDTHS);
    h := HeaderOf(v);
    r := SkipOptionsOf(p, h.doff);
  }

  /** Lines 36-47. */
  method SkipOptionsOf(p: NetParser, doff: byte) returns (r: ParseResult)
    modifies p
    ensures p.Model() == SkipOptions(doff, old(p.Model()))
    ensures r == if doff < 5 then HeaderTooShort else p.error
  {
    if doff < 5 {
      return HeaderTooShort;
    }
    p.RemovePrefix(doff * 4 - TCP_LENGTH);
    r := p.error;
  }

  /** The 32-bit sum that the checksum of a segment is taken of. */
  function SegmentSum(pseudo: u32, data: seq<byte>): u32 { (pseudo + ByteSum(data, false)) % TWO_32 }

  /** TCPSegment::serialize: header with zero checksum, then the payload, are summed and the result filled in. */
  function SerializeSegment(seg: Segment, pseudo: u32): Thrown<seq<byte>> {
    match SerializeHeader(seg.header.(cksum := 0))
    case Returned(zeroed) =>
      var c := Complement(SegmentSum(pseudo, zeroed + seg.payload));
      (match SerializeHeader(seg.header.(cksum := c))
       case Returned(filled) => Returned(filled + seg.payload)
       case other => other)
    case other => other
  }

  /** TCPSegment::parse: the header parser's own result is not looked at. */
  function ParseSegment(buffer: seq<byte>, pseudo: u32): Result<Segment> {
    if Complement(SegmentSum(pseudo, buffer)) != 0 then Failed(BadChecksum)
    else
      var (h, q, _) := ParseHeader(Parser(buffer, NoError));
      if q.error != NoError then Failed(q.error) else Ok(Segment(h, q.buffer))
  }

  // ---- Round trips ----

  lemma LeadingSize(h: TcpHeader)
    ensures |Encode(Leading(h))| == 16
  {
    var l := Leading(h);
    assert Encode(l[6..]) == Unparse(l[6].value, 2) + Encode(l[6..][1..]);
    EncodeAppend(l[..2], l[2..]);
    EncodeAppend(l[2..4], l[4..]);
    assert l == l[..2] + l[2..] && l[2..] == l[2..4] + l[4..];
    assert |Encode(l[..2])| == 4 && |Encode(l[2..4])| == 8;
    EncodeAppend(l[4..6], l[6..]);
    assert l[4..] == l[4..6] + l[6..];
    assert |Encode(l[4..6])| == 2;
  }

  lemma FlagsRoundTrip(h: TcpHeader)
    ensures var f := Flags(h);
            && HasBit(f, 32) == h.urg && HasBit(f, 16) == h.ack && HasBit(f, 8) == h.psh
            && HasBit(f, 4) == h.rst && HasBit(f, 2) == h.syn && HasBit(f, 1) == h.fin
  {
  }

  lemma HeaderOfFields(h: TcpHeader)
    requires h.doff <= 15
    ensures Widths(TcpFields(h)) == TCP_WIDTHS && HeaderOf(Values(TcpFields(h))) == h
  {
    FlagsRoundTrip(h);
    assert h.doff * 16 % 256 / 16 % 256 == h.doff;
  }

  lemma SkipPadding(n: nat, rest: seq<byte>)
    ensures DropBytes(Parser(Zeros(n) + rest, NoError), n) == Parser(rest, NoError)
  {
    assert (Zeros(n) + rest)[n..] == rest;
  }

  lemma HeaderRoundTrip(h: TcpHeader, rest: seq<byte>)
    requires 5 <= h.doff <= 15
    ensures ParseHeader(Parser(SerializeHeader(h).value + rest, NoError)) == (h, Parser(rest, NoError), NoError)
  {
    var n := 4 * h.doff - TCP_LENGTH;
    var p := Parser(SerializeHeader(h).value + rest, NoError);
    assert p.buffer == Encode(TcpFields(h)) + (Zeros(n) + rest);
    FieldsFit(h);
    HeaderOfFields(h);
    ParseEncoded(TcpFields(h), Zeros(n) + rest);
    SkipPadding(n, rest);
    assert TakeInts(p, TCP_WIDTHS) == (Values(TcpFields(h)), Parser(Zeros(n) + rest, NoError));
  }

  lemma FieldsFit(h: TcpHeader)
    ensures forall i :: 0 <= i < |TcpFields(h)| ==> TcpFields(h)[i].Fits()
  {
    SmallPowers();
  }

  /** Filling in the checksum adds exactly its value to the sum. */
  lemma FilledHeaderSum(h: TcpHeader, c: u16, payload: seq<byte>)
    requires h.doff >= 5
    ensures ByteSum(SerializeHeader(h.(cksum := c)).value + payload, false)
            == ByteSum(SerializeHeader(h.(cksum := 0)).value + payload, false) + c
  {
    var x, y := Encode(TcpFields(h.(cksum := c))), Encode(TcpFields(h.(cksum := 0)));
    var pad := Zeros(4 * h.doff - TCP_LENGTH);
    FieldsWith(h, c);
    FieldsWith(h, 0);
    SumsDiffer(x, y, pad, c);
    SumsDiffer(x + pad, y + pad, payload, c);
  }

  lemma FieldsWith(h: TcpHeader, c: u16)
    ensures var x, l := Encode(TcpFields(h.(cksum := c))), Encode(Leading(h));
            var t := Encode([Field(h.uptr, 2)]);
            |x| == |l| + 2 + |t| && ByteSum(x, false) == ByteSum(l, false) + c + ByteSum(t, false)
  {
    var f := h.(cksum := c);
    LeadingSize(h);
    SumWithField(Leading(h), c, [Field(h.uptr, 2)]);
    assert Leading(f) == Leading(h);
  }

  /** A segment small enough for one datagram cannot overflow the 32-bit sum. */
  lemma SumFits(pseudo: u32, data: seq<byte>)
    requires |data| <= 0xffff && pseudo <= 6 * 0xffff
    ensures SegmentSum(pseudo, data) == pseudo + ByteSum(data, false)
  {
    ByteSumBound(data, false);
  }

  lemma SerializedSize(h: TcpHeader)
    requires h.doff >= 5
    ensures |SerializeHeader(h).value| == 4 * h.doff
  {
    LeadingSize(h);
    SumWithField(Leading(h), h.cksum, [Field(h.uptr, 2)]);
    assert Encode([Field(h.uptr, 2)]) == Unparse(h.uptr, 2) + Encode([]);
  }

  /** The filled-in segment passes the check that the zeroed one was prepared for. */
  lemma ChecksumAccepted(h: TcpHeader, payload: seq<byte>, pseudo: u32)
    requires h.doff >= 5 && 4 * h.doff + |payload| <= 0xffff && pseudo <= 6 * 0xffff
    ensures var c := Complement(SegmentSum(pseudo, SerializeHeader(h.(cksum := 0)).value + payload));
            Complement(SegmentSum(pseudo, SerializeHeader(h.(cksum := c)).value + payload)) == 0
  {
    var zeroed := SerializeHeader(h.(cksum := 0)).value + payload;
    SerializedSize(h.(cksum := 0));
    SumFits(pseudo, zeroed);
    var s := pseudo + ByteSum(zeroed, false);
    var c := Complement(s);
    SerializedSize(h.(cksum := c));
    SumFits(pseudo, SerializeHeader(h.(cksum := c)).value + payload);
    FilledHeaderSum(h, c, payload);
    FilledInIsAccepted(s);
  }

  /** Parsing what serialize wrote gives the segment back, with its checksum filled in. */
  lemma SegmentRoundTrip(seg: Segment, pseudo: u32)
    requires 5 <= seg.header.doff <= 15 && 4 * seg.header.doff + |seg.payload| <= 0xffff && pseudo <= 6 * 0xffff
    ensures var out := SerializeSegment(seg, pseudo);
            && out.Returned? && |out.value| == 4 * seg.header.doff + |seg.payload|
            && var back := ParseSegment(out.value, pseudo);
               back.Ok? && back.value == seg.(header := seg.header.(cksum := back.value.header.cksum))
  {
    var h := seg.header;
    var c := Complement(SegmentSum(pseudo, SerializeHeader(h.(cksum := 0)).value + seg.payload));
    ChecksumAccepted(h, seg.payload, pseudo);
    SerializedSize(h.(cksum := c));
    HeaderRoundTrip(h.(cksum := c), seg.payload);
  }

  // ---- Where the fields are ----

  /** The header's fields lie at the bytes that section 3.1 of RFC 793 gives them, high byte first. */
  ghost predicate TcpLayout(b: seq<byte>, h: TcpHeader)
    requires |b| >= TCP_LENGTH
  {
    && h.sport == NumberAt(b, 0, 2) && h.dport == NumberAt(b, 2, 2)
    && h.seqno == NumberAt(b, 4, 4) && h.ackno == NumberAt(b, 8, 4)
    && h.doff == b[12] / 16
    && h.urg == HasBit(b[13], 32) && h.ack == HasBit(b[13], 16) && h.psh == HasBit(b[13], 8)
    && h.rst == HasBit(b[13], 4) && h.syn == HasBit(b[13], 2) && h.fin == HasBit(b[13], 1)
    && h.win == NumberAt(b, 14, 2) && h.cksum == NumberAt(b, 16, 2) && h.uptr == NumberAt(b, 18, 2)
  }

  lemma TcpOffsets()
    ensures OffsetOf(TCP_WIDTHS, 0) == 0 && OffsetOf(TCP_WIDTHS, 1) == 2 && OffsetOf(TCP_WIDTHS, 2) == 4
    ensures OffsetOf(TCP_WIDTHS, 3) == 8 && OffsetOf(TCP_WIDTHS, 4) == 12 && OffsetOf(TCP_WIDTHS, 5) == 13
    ensures OffsetOf(TCP_WIDTHS, 6) == 14 && OffsetOf(TCP_WIDTHS, 7) == 16 && OffsetOf(TCP_WIDTHS, 8) == 18
    ensures OffsetOf(TCP_WIDTHS, 9) == 20
  {
    assert OffsetOf(TCP_WIDTHS, 2) == 4;
    assert OffsetOf(TCP_WIDTHS, 4) == 12;
    assert OffsetOf(TCP_WIDTHS, 6) == 14;
    assert OffsetOf(TCP_WIDTHS, 8) == 18;
  }

  lemma TcpTotal()
    ensures Total(TCP_WIDTHS) == TCP_LENGTH
  {
    TcpOffsets();
    TotalIsOffset(TCP_WIDTHS);
  }

  lemma TcpInteger(b: seq<byte>, k: nat, off: nat, w: nat)
    requires |b| >= TCP_LENGTH && k < 9 && off == OffsetOf(TCP_WIDTHS, k) && w == TCP_WIDTHS[k]
    ensures off + w <= |b| && TakeInts(Parser(b, NoError), TCP_WIDTHS).0[k] == NumberAt(b, off, w) < Pow256(w)
  {
    TcpOffsets();
    IntegerAt(b, TCP_WIDTHS, k);
    NumberFits(b, off, w);
  }

  /** Ports and numbers. */
  lemma FirstIntegers(b: seq<byte>, v: seq<nat>)
    requires |b| >= TCP_LENGTH && v == TakeInts(Parser(b, NoError), TCP_WIDTHS).0
    ensures v[0] == NumberAt(b, 0, 2) < Pow256(2) && v[1] == NumberAt(b, 2, 2) < Pow256(2)
    ensures v[2] == NumberAt(b, 4, 4) < Pow256(4) && v[3] == NumberAt(b, 8, 4) < Pow256(4)
  {
    TcpOffsets();
    TcpInteger(b, 0, 0, 2);
    TcpInteger(b, 1, 2, 2);
    TcpInteger(b, 2, 4, 4);
    TcpInteger(b, 3, 8, 4);
  }

  /** Offset, flags, window, checksum and urgent pointer. */
  lemma LastIntegers(b: seq<byte>, v: seq<nat>)
    requires |b| >= TCP_LENGTH && v == TakeInts(Parser(b, NoError), TCP_WIDTHS).0
    ensures v[4] == b[12] && v[5] == b[13] && v[6] == NumberAt(b, 14, 2) < Pow256(2)
    ensures v[7] == NumberAt(b, 16, 2) < Pow256(2) && v[8] == NumberAt(b, 18, 2) < Pow256(2)
  {
    TcpOffsets();
    TcpInteger(b, 4, 12, 1);
    TcpInteger(b, 5, 13, 1);
    TcpInteger(b, 6, 14, 2);
    TcpInteger(b, 7, 16, 2);
    TcpInteger(b, 8, 18, 2);
    OneByte(b, 12);
    OneByte(b, 13);
  }

  lemma HeaderFields(v: seq<nat>)
    requires |v| == 9 && v[0] < TWO_16 && v[1] < TWO_16 && v[2] < TWO_32 && v[3] < TWO_32 && v[4] < 256
    requires v[6] < TWO_16 && v[7] < TWO_16 && v[8] < TWO_16
    ensures var h := HeaderOf(v);
            && h.sport == v[0] && h.dport == v[1] && h.seqno == v[2] && h.ackno == v[3] && h.doff == v[4] / 16
            && h.win == v[6] && h.cksum == v[7] && h.uptr == v[8]
  {
  }

  /** Every input of at least twenty bytes is read by that layout. */
  lemma ParsesByLayout(b: seq<byte>)
    requires |b| >= TCP_LENGTH
    ensures TcpLayout(b, ParseHeader(Parser(b, NoError)).0)
  {
    var v := TakeInts(Parser(b, NoError), TCP_WIDTHS).0;
    SmallPowers();
    FirstIntegers(b, v);
    LastIntegers(b, v);
    HeaderFields(v);
  }

  /** Every header is written by that layout. */
  lemma SerializesByLayout(h: TcpHeader)
    requires 5 <= h.doff <= 15
    ensures |SerializeHeader(h).value| == 4 * h.doff && TcpLayout(SerializeHeader(h).value, h)
  {
    var b := SerializeHeader(h).value;
    SerializedSize(h);
    HeaderRoundTrip(h, []);
    assert b + [] == b;
    ParsesByLayout(b);
  }

  // ---- What is accepted ----

  lemma DataOffset(b: seq<byte>)
    requires |b| >= TCP_LENGTH
    ensures HeaderOf(TakeInts(Parser(b, NoError), TCP_WIDTHS).0).doff == b[12] / 16
  {
    ParsesByLayout(b);
  }

  lemma SkipIsFineIff(doff: byte, b: seq<byte>)
    requires |b| >= TCP_LENGTH
    ensures SkipOptions(doff, Parser(b[TCP_LENGTH..], NoError)).error == NoError <==> doff < 5 || 4 * doff <= |b|
  {
  }

  lemma ErrorStays(doff: byte, q: Parser)
    requires q.error != NoError
    ensures SkipOptions(doff, q).error != NoError
  {
  }

  /**
   * Exactly which inputs are taken for a segment: the checksum is right, there are twenty bytes, and the data
   * offset does not reach beyond the end. That it is at least five, as the header parser reports, is not asked.
   */
  lemma SegmentAcceptedIff(b: seq<byte>, pseudo: u32)
    ensures ParseSegment(b, pseudo).Ok? <==>
            && Complement(SegmentSum(pseudo, b)) == 0
            && |b| >= TCP_LENGTH && (b[12] / 16 < 5 || 4 * (b[12] / 16) <= |b|)
  {
    TcpTotal();
    var p := Parser(b, NoError);
    TakeIntsConsumes(p, TCP_WIDTHS);
    var (v, q) := TakeInts(p, TCP_WIDTHS);
    if |b| >= TCP_LENGTH {
      DataOffset(b);
      SkipIsFineIff(b[12] / 16, b);
    } else {
      ErrorStays(HeaderOf(v).doff, q);
    }
  }

  /** Twenty zero bytes, whose data offset is zero, make a segment, although their header is reported as too short. */
  lemma ShortHeaderIsAccepted()
    ensures ParseSegment(Zeros(20), 0xffff).Ok? && ParseHeader(Parser(Zeros(20), NoError)).2 == HeaderTooShort
  {
    var b := Zeros(20);
    ZerosSum(20, false);
    assert SegmentSum(0xffff, b) == 0xffff;
    ValueZeroIff(0xffff);
    SegmentAcceptedIff(b, 0xffff);
    DataOffset(b);
  }
}
