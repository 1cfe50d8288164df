/** The Internet checksum (util/util.cc), section 1 of RFC 1071. */
module Checksum {
  import opened Numbers

  /** Weight of a byte: the first of each pair is the high half of a 16-bit word. */
  function Weight(b: byte, odd: bool): nat { if odd then b else b * 256 }

  /** Sum of 16-bit words, with data starting at an even or odd position. */
  function ByteSum(data: seq<byte>, odd: bool): nat {
    if data == [] then 0 else Weight(data[0], odd) + ByteSum(data[1..], !odd)
  }

  /** Parity after n more bytes. */
  function Parity(odd: bool, n: nat): bool { odd != (n % 2 == 1) }

  /** Summing in pieces is summing at once: chunking does not matter. */
  lemma {:induction false} ByteSumAppend(a: seq<byte>, b: seq<byte>, odd: bool)
    ensures ByteSum(a + b, odd) == ByteSum(a, odd) + ByteSum(b, Parity(odd, |a|))
    decreases |a|
  {
    if a == [] {
      assert a + b == b;
    } else {
      assert (a + b)[1..] == a[1..] + b;
      ByteSumAppend(a[1..], b, !odd);
      assert Parity(!odd, |a| - 1) == Parity(odd, |a|);
    }
  }

  lemma {:induction false} ByteSumBound(data: seq<byte>, odd: bool)
    ensures ByteSum(data, odd) <= 65280 * |data|
    decreases |data|
  {
    if data != [] {
      ByteSumBound(data[1..], !odd);
    }
  }

  /** Fold carries back in until the sum fits in 16 bits. */
  function Fold(s: nat): nat
    decreases s
  {
    if s <= 0xffff then s else Fold(s / TWO_16 + s % TWO_16)
  }

  /** Folding is reduction modulo 65535, except that it keeps 65535 apart from 0. */
  lemma {:induction false} FoldIsModulo(s: nat)
    ensures Fold(s) <= 0xffff && Fold(s) % 0xffff == s % 0xffff && (Fold(s) == 0 <==> s == 0)
    decreases s
  {
    if s > 0xffff {
      var q, r := s / TWO_16, s % TWO_16;
      FoldIsModulo(q + r);
      assert s == q * 0xffff + (q + r);
      ModuloOfMultiple(q, q + r);
    }
  }

  lemma ModuloOfMultiple(q: nat, r: nat)
    ensures (q * 0xffff + r) % 0xffff == r % 0xffff
  {
  }

  /** The complement of the folded sum. */
  function Complement(s: nat): (v: u16) {
    FoldIsModulo(s);
    0xffff - Fold(s)
  }

  /** A sum is accepted (value zero) exactly when it is a positive multiple of 65535. */
  lemma ValueZeroIff(s: nat)
    ensures Complement(s) == 0 <==> s > 0 && s % 0xffff == 0
  {
    FoldIsModulo(s);
    if Fold(s) % 0xffff == 0 {
      assert Fold(s) == 0 || Fold(s) == 0xffff;
    }
  }

  /** Adding the value of a sum to it makes it accepted. */
  lemma FilledInIsAccepted(s: nat)
    ensures Complement(s + Complement(s)) == 0
  {
    FoldIsModulo(s);
    var f := Fold(s);
    var k := s / 0xffff;
    var m := s % 0xffff;
    assert s == k * 0xffff + m;
    assert f == m || f == m + 0xffff;
    var t := if f == m then k + 1 else k;
    assert s + (0xffff - f) == t * 0xffff;
    ModuloOfMultiple(t, 0);
    ValueZeroIff(s + Complement(s));
  }

  lemma AddThenWrap(total: nat, v: nat)
    ensures (total % TWO_32 + v) % TWO_32 == (total + v) % TWO_32
  {
  }

  /** One more byte at the end. */
  lemma ByteSumSnoc(data: seq<byte>, b: byte, odd: bool)
    ensures ByteSum(data + [b], odd) == ByteSum(data, odd) + Weight(b, Parity(odd, |data|))
    ensures Parity(odd, |data| + 1) == !Parity(odd, |data|)
  {
    ByteSumAppend(data, [b], odd);
  }

  class InternetChecksum {
    var sum: u32
    var parity: bool

    constructor (initial: u32)
      ensures sum == initial && !parity
    {
      sum, parity := initial, false;
    }

    method Add(data: seq<byte>)
      modifies this
      ensures sum == (old(sum) + ByteSum(data, old(parity))) % TWO_32
      ensures parity == Parity(old(parity), |data|)
    {
      for i := 0 to |data|
        invariant sum == (old(sum) + ByteSum(data[..i], old(parity))) % TWO_32
        invariant parity == Parity(old(parity), i)
      {
        var val: nat := data[i];
        ByteSumSnoc(data[..i], data[i], old(parity));
        assert data[..i + 1] == data[..i] + [data[i]];
        if !parity {
          val := val * 256;
        }
        AddThenWrap(old(sum) + ByteSum(data[..i], old(parity)), val);
        sum := (sum + val) % TWO_32;
        parity := !parity;
      }
      assert data[..|data|] == data;
    }

    method Value() returns (v: u16)
      ensures v == Complement(sum)
    {
      var ret: nat := sum;
      while ret > 0xffff
        invariant Fold(ret) == Fold(sum)
      {
        ret := ret / TWO_16 + ret % TWO_16;
      }
      v := 0xffff - ret;
    }
  }
}
