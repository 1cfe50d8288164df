/** Big-endian integers on the wire (util/parser.cc), one at a time and as lists of fields. */
module NetCodec {
  import opened Numbers
  import opened Checksum

  datatype ParseResult =
    NoError | BadChecksum | PacketTooShort | WrongIPVersion | HeaderTooShort | TruncatedPacket

  function Pow256(n: nat): (r: nat)
    ensures r > 0
  {
    if n == 0 then 1 else 256 * Pow256(n - 1)
  }

  lemma SmallPowers()
    ensures Pow256(1) == 256 && Pow256(2) == TWO_16 && Pow256(4) == TWO_32
  {
    assert Pow256(2) == TWO_16;
    assert Pow256(3) == 256 * TWO_16;
  }

  /** The len low-order bytes of v, high byte first. */
  function Unparse(v: nat, len: nat): (bs: seq<byte>)
    ensures |bs| == len
  {
    if len == 0 then [] else Unparse(v / 256, len - 1) + [v % 256]
  }

  function Number(bs: seq<byte>): nat {
    if bs == [] then 0 else Number(bs[..|bs| - 1]) * 256 + bs[|bs| - 1]
  }

  lemma {:induction false} NumberUnparse(v: nat, len: nat)
    requires v < Pow256(len)
    ensures Number(Unparse(v, len)) == v
  {
    if len > 0 {
      NumberUnparse(v / 256, len - 1);
      assert Unparse(v, len)[..len - 1] == Unparse(v / 256, len - 1);
    }
  }

  lemma {:induction false} UnparseNumber(bs: seq<byte>)
    ensures Number(bs) < Pow256(|bs|) && Unparse(Number(bs), |bs|) == bs
  {
    if bs != [] {
      UnparseNumber(bs[..|bs| - 1]);
    }
  }

  lemma DivideTwice(v: nat, p: nat)
    requires p > 0
    ensures (v / 256) / p == v / (256 * p)
  {
    var a, b := v / 256, (v / 256) / p;
    var r := v - 256 * p * b;
    assert a == p * b + a % p;
    assert 0 <= r < 256 * p;
    Quotient(v, 256 * p, b, r);
  }

  lemma Quotient(v: nat, d: nat, q: nat, r: int)
    requires d > 0 && v == d * q + r && 0 <= r < d
    ensures v / d == q
  {
    var k := v / d - q;
    assert v == d * (v / d) + v % d;
    assert d * k == r - v % d;
    assert k >= 1 ==> d * k >= d;
    assert k <= -1 ==> d * k + d <= 0;
  }

  lemma {:induction false} UnparseAt(v: nat, len: nat, i: nat)
    requires i < len
    ensures Unparse(v, len)[i] == v / Pow256(len - 1 - i) % 256
  {
    if i < len - 1 {
      UnparseAt(v / 256, len - 1, i);
      DivideTwice(v, Pow256(len - 2 - i));
    }
  }

  /** _unparse_int: append the bytes one by one, each cut out by a shift and a mask. */
  method UnparseInt(s: seq<byte>, v: nat, len: nat) returns (r: seq<byte>)
    ensures r == s + Unparse(v, len)
  {
    r := s;
    for i := 0 to len
      invariant r == s + Unparse(v, len)[..i]
    {
      UnparseAt(v, len, i);
      r := r + [v / Pow256(len - i - 1) % 256];
    }
  }

  /** What is left to parse, and the first error met; an error stops everything after it. */
  datatype Parser = Parser(buffer: seq<byte>, error: ParseResult)

  function CheckSize(p: Parser, n: nat): Parser {
    if n > |p.buffer| then p.(error := PacketTooShort) else p
  }

  function TakeInt(p: Parser, len: nat): (nat, Parser) {
    var c := CheckSize(p, len);
    if c.error != NoError then (0, c) else (Number(c.buffer[..len]), c.(buffer := c.buffer[len..]))
  }

  function DropBytes(p: Parser, n: nat): Parser {
    var c := CheckSize(p, n);
    if c.error != NoError then c else c.(buffer := c.buffer[n..])
  }

  class NetParser {
    var buffer: seq<byte>
    var error: ParseResult

    ghost function Model(): Parser
      reads this
    {
      Parser(buffer, error)
    }

    constructor (buffer: seq<byte>)
      ensures Model() == Parser(buffer, NoError)
    {
      this.buffer, error := buffer, NoError;
    }

    /** _parse_int */
    method ParseInt(len: nat) returns (ret: nat)
      modifies this
      ensures (ret, Model()) == TakeInt(old(Model()), len)
    {
      if len > |buffer| {
        error := PacketTooShort;
      }
      if error != NoError {
        return 0;
      }
      ret := 0;
      for i := 0 to len
        invariant ret == Number(buffer[..i])
      {
        assert buffer[..i + 1][..i] == buffer[..i];
        ret := ret * 256 + buffer[i];
      }
      buffer := buffer[len..];
    }

    /** A header's integers, read one after the other. */
    method ParseInts(ws: seq<nat>) returns (vs: seq<nat>)
      modifies this
      ensures (vs, Model()) == TakeInts(old(Model()), ws)
    {
      vs := [];
      assert ws[0..] == ws;
      ghost var all := TakeInts(Model(), ws).0;
      assert [] + all == all;
      for i := 0 to |ws|
        invariant var more := TakeInts(Model(), ws[i..]);
                  (vs + more.0, more.1) == TakeInts(old(Model()), ws)
      {
        TakeIntsStep(Model(), ws[i..]);
        assert ws[i..][1..] == ws[i + 1..];
        ghost var more := TakeInts(TakeInt(Model(), ws[i]).1, ws[i + 1..]).0;
        var v := ParseInt(ws[i]);
        assert vs + ([v] + more) == (vs + [v]) + more;
        vs := vs + [v];
      }
      assert TakeInts(Model(), ws[|ws|..]) == ([], Model());
      assert vs + [] == vs;
    }

    method RemovePrefix(n: nat)
      modifies this
      ensures Model() == DropBytes(old(Model()), n)
    {
      if n > |buffer| {
        error := PacketTooShort;
      }
      if error != NoError {
        return;
      }
      buffer := buffer[n..];
    }
  }

  // ---- Lists of fields ----

  datatype Field = Field(value: nat, width: nat) {
    ghost predicate Fits() { value < Pow256(width) }
  }

  function Encode(fs: seq<Field>): seq<byte> {
    if fs == [] then [] else Unparse(fs[0].value, fs[0].width) + Encode(fs[1..])
  }

  function Widths(fs: seq<Field>): (ws: seq<nat>)
    ensures |ws| == |fs| && forall i :: 0 <= i < |fs| ==> ws[i] == fs[i].width
  {
    seq(|fs|, i requires 0 <= i < |fs| => fs[i].width)
  }

  function Values(fs: seq<Field>): (vs: seq<nat>)
    ensures |vs| == |fs| && forall i :: 0 <= i < |fs| ==> vs[i] == fs[i].value
  {
    seq(|fs|, i requires 0 <= i < |fs| => fs[i].value)
  }

  /** Parse integers of the given widths one after the other. */
  function TakeInts(p: Parser, ws: seq<nat>): (r: (seq<nat>, Parser))
    ensures |r.0| == |ws|
    decreases |ws|
  {
    if ws == [] then ([], p)
    else
      var (v, q) := TakeInt(p, ws[0]);
      var (vs, t) := TakeInts(q, ws[1..]);
      ([v] + vs, t)
  }

  lemma TakeIntInverts(v: nat, len: nat, rest: seq<byte>)
    requires v < Pow256(len)
    ensures TakeInt(Parser(Unparse(v, len) + rest, NoError), len) == (v, Parser(rest, NoError))
  {
    NumberUnparse(v, len);
    assert (Unparse(v, len) + rest)[..len] == Unparse(v, len);
    assert (Unparse(v, len) + rest)[len..] == rest;
  }

  lemma EncodeHead(fs: seq<Field>, rest: seq<byte>)
    requires fs != []
    ensures Encode(fs) + rest == Unparse(fs[0].value, fs[0].width) + (Encode(fs[1..]) + rest)
    ensures Widths(fs)[1..] == Widths(fs[1..]) && Values(fs) == [fs[0].value] + Values(fs[1..])
  {
  }

  /** Parsing an encoded list of fields gives back its values and leaves what follows. */
  lemma {:induction false} ParseEncoded(fs: seq<Field>, rest: seq<byte>)
    requires forall i :: 0 <= i < |fs| ==> fs[i].Fits()
    ensures TakeInts(Parser(Encode(fs) + rest, NoError), Widths(fs)) == (Values(fs), Parser(rest, NoError))
    decreases |fs|
  {
    if fs == [] {
      assert Encode(fs) + rest == rest;
      assert Widths(fs) == [] && Values(fs) == [];
    } else {
      var f := fs[0];
      EncodeHead(fs, rest);
      TakeIntInverts(f.value, f.width, Encode(fs[1..]) + rest);
      ParseEncoded(fs[1..], rest);
      TakeIntsStep(Parser(Encode(fs) + rest, NoError), Widths(fs));
    }
  }

  lemma TakeIntsStep(p: Parser, ws: seq<nat>)
    requires ws != []
    ensures var first := TakeInt(p, ws[0]);
            var more := TakeInts(first.1, ws[1..]);
            TakeInts(p, ws) == ([first.0] + more.0, more.1)
  {
  }

  function Fields(vs: seq<nat>, ws: seq<nat>): seq<Field>
    requires |vs| == |ws|
  {
    if vs == [] then [] else [Field(vs[0], ws[0])] + Fields(vs[1..], ws[1..])
  }

  lemma FieldsHead(v: nat, vs: seq<nat>, ws: seq<nat>)
    requires |ws| == |vs| + 1
    ensures Encode(Fields([v] + vs, ws)) == Unparse(v, ws[0]) + Encode(Fields(vs, ws[1..]))
  {
    assert ([v] + vs)[1..] == vs;
    var fs := Fields([v] + vs, ws);
    assert fs[1..] == Fields(vs, ws[1..]);
  }

  /** The other way round: the values parsed from any input, encoded again, are the bytes that were consumed. */
  lemma {:induction false} EncodeParsed(p: Parser, ws: seq<nat>)
    requires p.error == NoError && TakeInts(p, ws).1.error == NoError
    ensures Encode(Fields(TakeInts(p, ws).0, ws)) + TakeInts(p, ws).1.buffer == p.buffer
    decreases |ws|
  {
    if ws != [] {
      var first := TakeInt(p, ws[0]);
      TakeIntsStep(p, ws);
      StickyError(first.1, ws[1..]);
      EncodeParsed(first.1, ws[1..]);
      UnparseNumber(p.buffer[..ws[0]]);
      FieldsHead(first.0, TakeInts(first.1, ws[1..]).0, ws);
      assert p.buffer == p.buffer[..ws[0]] + p.buffer[ws[0]..];
    }
  }

  /** Once an error is set, nothing more is consumed and the error stays. */
  lemma {:induction false} StickyError(p: Parser, ws: seq<nat>)
    ensures p.error != NoError ==> TakeInts(p, ws).1.error != NoError && TakeInts(p, ws).1.buffer == p.buffer
    decreases |ws|
  {
    if ws != [] {
      StickyError(TakeInt(p, ws[0]).1, ws[1..]);
    }
  }

  lemma {:induction false} EncodeAppend(a: seq<Field>, b: seq<Field>)
    ensures Encode(a + b) == Encode(a) + Encode(b)
    decreases |a|
  {
    if a == [] {
      assert a + b == b;
    } else {
      assert (a + b)[1..] == a[1..] + b;
      EncodeAppend(a[1..], b);
    }
  }

  /** A 16-bit field at an even position adds its own value to the checksum. */
  lemma WordSum(c: u16)
    ensures ByteSum(Unparse(c, 2), false) == c
  {
    var hi := Unparse(c / 256, 1);
    assert Unparse(c, 2) == hi + [c % 256] && hi == [c / 256 % 256];
    assert Unparse(c, 2)[1..] == [c % 256];
    assert ByteSum([c % 256], true) == c % 256;
  }

  lemma SumWithField(before: seq<Field>, c: u16, after: seq<Field>)
    requires |Encode(before)| % 2 == 0
    ensures ByteSum(Encode(before + [Field(c, 2)] + after), false)
            == ByteSum(Encode(before), false) + c + ByteSum(Encode(after), false)
    ensures |Encode(before + [Field(c, 2)] + after)| == |Encode(before)| + 2 + |Encode(after)|
  {
    var b, w, a := Encode(before), Unparse(c, 2), Encode(after);
    EncodeAppend(before + [Field(c, 2)], after);
    EncodeAppend(before, [Field(c, 2)]);
    assert Encode([Field(c, 2)]) == w + Encode([]) == w;
    ByteSumAppend(b + w, a, false);
    ByteSumAppend(b, w, false);
    WordSum(c);
  }

  /** The same bytes after either of two strings of one length keep the difference of their sums. */
  lemma SumsDiffer(x: seq<byte>, y: seq<byte>, rest: seq<byte>, c: nat)
    requires |x| == |y| && ByteSum(x, false) == ByteSum(y, false) + c
    ensures ByteSum(x + rest, false) == ByteSum(y + rest, false) + c
  {
    ByteSumAppend(x, rest, false);
    ByteSumAppend(y, rest, false);
  }

  // ---- How much is consumed ----

  function Total(ws: seq<nat>): nat {
    if ws == [] then 0 else ws[0] + Total(ws[1..])
  }

  /** Integers that are all there are consumed exactly; otherwise the parser ends in error. */
  lemma {:induction false} TakeIntsConsumes(p: Parser, ws: seq<nat>)
    requires p.error == NoError
    ensures Total(ws) <= |p.buffer| ==> TakeInts(p, ws).1 == Parser(p.buffer[Total(ws)..], NoError)
    ensures Total(ws) > |p.buffer| ==> TakeInts(p, ws).1.error != NoError
    decreases |ws|
  {
    if ws == [] {
      assert p.buffer[0..] == p.buffer;
    } else {
      TakeIntsStep(p, ws);
      var q := TakeInt(p, ws[0]).1;
      if q.error == NoError {
        TakeIntsConsumes(q, ws[1..]);
      } else {
        StickyError(q, ws[1..]);
      }
    }
  }

  /** The big-endian number of w bytes at off. */
  function NumberAt(b: seq<byte>, off: nat, w: nat): nat
    requires off + w <= |b|
  {
    Number(b[off..off + w])
  }

  lemma NumberFits(b: seq<byte>, off: nat, w: nat)
    requires off + w <= |b|
    ensures NumberAt(b, off, w) < Pow256(w)
  {
    UnparseNumber(b[off..off + w]);
  }

  /** The numbers of the given widths, one after the other from off. */
  function NumbersAt(b: seq<byte>, off: nat, ws: seq<nat>): (vs: seq<nat>)
    requires off + Total(ws) <= |b|
    ensures |vs| == |ws|
    decreases |ws|
  {
    if ws == [] then [] else [NumberAt(b, off, ws[0])] + NumbersAt(b, off + ws[0], ws[1..])
  }

  lemma TakeOne(b: seq<byte>, off: nat, w: nat)
    requires off + w <= |b|
    ensures TakeInt(Parser(b[off..], NoError), w) == (NumberAt(b, off, w), Parser(b[off + w..], NoError))
  {
    assert b[off..][..w] == b[off..off + w] && b[off..][w..] == b[off + w..];
  }

  lemma NumbersStep(b: seq<byte>, off: nat, ws: seq<nat>)
    requires ws != [] && off + Total(ws) <= |b|
    ensures Total(ws) == ws[0] + Total(ws[1..])
    ensures NumbersAt(b, off, ws) == [NumberAt(b, off, ws[0])] + NumbersAt(b, off + ws[0], ws[1..])
  {
  }

  /** What is parsed from off on are those numbers. */
  lemma {:induction false} TakeIntsNumbers(b: seq<byte>, off: nat, ws: seq<nat>)
    requires off + Total(ws) <= |b|
    ensures TakeInts(Parser(b[off..], NoError), ws).0 == NumbersAt(b, off, ws)
    decreases |ws|
  {
    if ws != [] {
      TakeIntsNumbers(b, off + ws[0], ws[1..]);
      TakeOne(b, off, ws[0]);
      TakeIntsStep(Parser(b[off..], NoError), ws);
      NumbersStep(b, off, ws);
    }
  }

  /** Where the k-th integer starts. */
  function OffsetOf(ws: seq<nat>, k: nat): nat
    requires k <= |ws|
  {
    if k == 0 then 0 else OffsetOf(ws, k - 1) + ws[k - 1]
  }

  lemma {:induction false} OffsetShifts(ws: seq<nat>, k: nat)
    requires 0 < k <= |ws|
    ensures OffsetOf(ws, k) == ws[0] + OffsetOf(ws[1..], k - 1)
  {
    if k > 1 {
      OffsetShifts(ws, k - 1);
    }
  }

  lemma {:induction false} TotalIsOffset(ws: seq<nat>)
    ensures Total(ws) == OffsetOf(ws, |ws|)
  {
    if ws != [] {
      TotalIsOffset(ws[1..]);
      OffsetShifts(ws, |ws|);
    }
  }

  lemma {:induction false} OffsetFits(ws: seq<nat>, k: nat)
    requires k < |ws|
    ensures OffsetOf(ws, k) + ws[k] <= Total(ws)
  {
    if k > 0 {
      OffsetFits(ws[1..], k - 1);
      OffsetShifts(ws, k);
    }
  }

  lemma {:induction false} NumbersIndex(b: seq<byte>, off: nat, ws: seq<nat>, k: nat)
    requires off + Total(ws) <= |b| && k < |ws|
    ensures off + OffsetOf(ws, k) + ws[k] <= |b|
    ensures NumbersAt(b, off, ws)[k] == NumberAt(b, off + OffsetOf(ws, k), ws[k])
    decreases |ws|
  {
    OffsetFits(ws, k);
    NumbersStep(b, off, ws);
    if k > 0 {
      OffsetShifts(ws, k);
      NumbersIndex(b, off + ws[0], ws[1..], k - 1);
    }
  }

  /** The k-th integer that is parsed is the number at its place. */
  lemma IntegerAt(b: seq<byte>, ws: seq<nat>, k: nat)
    requires OffsetOf(ws, |ws|) <= |b| && k < |ws|
    ensures OffsetOf(ws, k) + ws[k] <= |b|
    ensures TakeInts(Parser(b, NoError), ws).0[k] == NumberAt(b, OffsetOf(ws, k), ws[k])
  {
    TotalIsOffset(ws);
    TakeIntsNumbers(b, 0, ws);
    NumbersIndex(b, 0, ws, k);
    assert b[0..] == b;
  }

  lemma OneByte(b: seq<byte>, i: nat)
    requires i < |b|
    ensures NumberAt(b, i, 1) == b[i]
  {
    assert b[i..i + 1] == [b[i]];
    assert Number([b[i]]) == Number([]) * 256 + b[i];
  }

  // ---- Zero padding ----

  function Zeros(n: nat): (z: seq<byte>)
    ensures |z| == n
  {
    seq(n, _ => 0)
  }

  lemma {:induction false} ZerosSum(n: nat, odd: bool)
    ensures ByteSum(Zeros(n), odd) == 0
  {
    if n > 0 {
      assert Zeros(n)[1..] == Zeros(n - 1);
      ZerosSum(n - 1, !odd);
    }
  }
}
