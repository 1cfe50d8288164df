/** 32-bit sequence numbers and their 64-bit absolute counterparts (wrapping_integers.cc). */
module WrappingIntegers {
  import opened Numbers

  function Wrap(n: u64, isn: u32): u32 {
    (n % TWO_32 + isn) % TWO_32
  }

  // Two's-complement readings of an unsigned word.
  function AsInt32(x: u32): int { if x < TWO_31 then x else x - TWO_32 }

  function AsInt64(x: u64): int { if x < TWO_63 then x else x - TWO_64 }

  /** The signed 32-bit distance from the wrapped checkpoint to n. */
  function Offset(n: u32, isn: u32, checkpoint: u64): (o: int)
    ensures -TWO_31 <= o < TWO_31
  {
    AsInt32((n - Wrap(checkpoint, isn)) % TWO_32)
  }

  function Unwrap(n: u32, isn: u32, checkpoint: u64): u64 {
    var res := AsInt64((checkpoint + Offset(n, isn, checkpoint)) % TWO_64);
    if res < 0 then (res + TWO_32) % TWO_64 else res
  }

  function Distance(a: int, b: int): nat { if a <= b then b - a else a - b }

  /** v wraps to n and no other 64-bit number wrapping to n is nearer the checkpoint. */
  ghost predicate Nearest(v: u64, n: u32, isn: u32, checkpoint: u64) {
    && Wrap(v, isn) == n
    && forall w: u64 :: Wrap(w, isn) == n ==> Distance(v, checkpoint) <= Distance(w, checkpoint)
  }

  /** Two numbers wrap alike exactly when they differ by a multiple of 2^32. */
  lemma WrapCongruent(a: u64, b: u64, isn: u32)
    ensures Wrap(a, isn) == Wrap(b, isn) <==> (a - b) % TWO_32 == 0
  {
    var ra, rb := a % TWO_32, b % TWO_32;
    assert (a - b) % TWO_32 == (ra - rb) % TWO_32;
    if Wrap(a, isn) == Wrap(b, isn) {
      assert ra == rb;
    }
  }

  lemma MultiplesAdd(a: int, b: int)
    requires a % TWO_32 == 0 && b % TWO_32 == 0
    ensures (a + b) % TWO_32 == 0
  {
  }

  lemma WrapIsCongruent(n: u64, isn: u32)
    ensures (n + isn - Wrap(n, isn)) % TWO_32 == 0
  {
  }

  lemma OnlyWrap(v: u64, isn: u32, n: u32)
    requires (v + isn - n) % TWO_32 == 0
    ensures Wrap(v, isn) == n
  {
    WrapIsCongruent(v, isn);
  }

  lemma OffsetIsCongruent(d: int)
    ensures (AsInt32(d % TWO_32) - d) % TWO_32 == 0
  {
  }

  /** The signed offset leads from the checkpoint to a number congruent to what n stands for. */
  lemma OffsetCongruent(n: u32, isn: u32, checkpoint: u64, v: u64)
    requires (v - checkpoint - Offset(n, isn, checkpoint)) % TWO_32 == 0
    ensures Wrap(v, isn) == n
  {
    var o, c := Offset(n, isn, checkpoint), Wrap(checkpoint, isn);
    WrapIsCongruent(checkpoint, isn);
    OffsetIsCongruent(n - c);
    MultiplesAdd(v - checkpoint - o, o - (n - c));
    MultiplesAdd(v - checkpoint - (n - c), checkpoint + isn - c);
    OnlyWrap(v, isn, n);
  }

  lemma UnwrapWrapsBack(n: u32, isn: u32, checkpoint: u64)
    ensures Wrap(Unwrap(n, isn, checkpoint), isn) == n
  {
    var v, o := Unwrap(n, isn, checkpoint), Offset(n, isn, checkpoint);
    var k := v - checkpoint - o;
    assert k in {0, TWO_32, TWO_64, -TWO_64, TWO_32 - TWO_64};
    OffsetCongruent(n, isn, checkpoint, v);
  }

  /** Unwrap in closed form: the four ways 64-bit arithmetic can treat checkpoint + offset. */
  lemma UnwrapValue(n: u32, isn: u32, checkpoint: u64)
    ensures var t := checkpoint + Offset(n, isn, checkpoint);
            Unwrap(n, isn, checkpoint) ==
            if t < 0 then t + TWO_32
            else if t < TWO_63 then t
            else if t < TWO_64 - TWO_32 then t + TWO_32
            else if t < TWO_64 then t + TWO_32 - TWO_64
            else t - TWO_64
  {
    var t := checkpoint + Offset(n, isn, checkpoint);
    if t < 0 {
      assert t % TWO_64 == t + TWO_64;
    } else if t >= TWO_64 {
      assert t % TWO_64 == t - TWO_64;
    }
  }

  /** Where 64-bit arithmetic keeps the answer: below 2^63, or at the exact midpoint between two candidates. */
  predicate InSignedRange(o: int, checkpoint: u64) {
    checkpoint + o < TWO_63 || (o == -TWO_31 && checkpoint + TWO_31 < TWO_64)
  }

  lemma NearestWithin(v: u64, isn: u32, checkpoint: u64, w: u64)
    requires Wrap(v, isn) == Wrap(w, isn)
    requires Distance(v, checkpoint) <= TWO_31 || v < TWO_32
    requires checkpoint <= v || Distance(v, checkpoint) <= TWO_31
    ensures Distance(v, checkpoint) <= Distance(w, checkpoint)
  {
    WrapCongruent(v, w, isn);
    var k := (v - w) / TWO_32;
    assert v - w == k * TWO_32;
    if k > 0 {
      assert v >= TWO_32;
    }
  }

  /** Unwrap meets its documented promise (closest to the checkpoint) exactly on this range. */
  lemma UnwrapIsNearestIff(n: u32, isn: u32, checkpoint: u64)
    ensures Nearest(Unwrap(n, isn, checkpoint), n, isn, checkpoint)
            <==> InSignedRange(Offset(n, isn, checkpoint), checkpoint)
  {
    var v, o := Unwrap(n, isn, checkpoint), Offset(n, isn, checkpoint);
    UnwrapWrapsBack(n, isn, checkpoint);
    UnwrapValue(n, isn, checkpoint);
    if InSignedRange(o, checkpoint) {
      forall w: u64 | Wrap(w, isn) == n
        ensures Distance(v, checkpoint) <= Distance(w, checkpoint)
      {
        NearestWithin(v, isn, checkpoint, w);
      }
    } else {
      var t := checkpoint + o;
      var w := if t < TWO_64 then t else t - TWO_32;
      OffsetCongruent(n, isn, checkpoint, w);
      assert Distance(w, checkpoint) < Distance(v, checkpoint);
    }
  }

  /** A concrete checkpoint beyond 2^63 for which the result is 2^32 away from the right one. */
  lemma UnwrapMissesBeyond63Bits()
    ensures Unwrap(0, 0, TWO_63) == TWO_63 + TWO_32
    ensures !Nearest(Unwrap(0, 0, TWO_63), 0, 0, TWO_63)
  {
    UnwrapIsNearestIff(0, 0, TWO_63);
  }

  lemma UnwrapInvertsWrap(v: u64, isn: u32, checkpoint: u64)
    requires v < TWO_63 && -TWO_31 <= v - checkpoint < TWO_31
    ensures Unwrap(Wrap(v, isn), isn, checkpoint) == v
  {
    var n := Wrap(v, isn);
    var w := Unwrap(n, isn, checkpoint);
    UnwrapWrapsBack(n, isn, checkpoint);
    UnwrapValue(n, isn, checkpoint);
    WrapCongruent(v, w, isn);
    var k := (v - w) / TWO_32;
    assert v - w == k * TWO_32;
  }
}
