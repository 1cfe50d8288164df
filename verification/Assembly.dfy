/**
 * What a stream reassembler is meant to be: the set of byte positions accepted so far, with their
 * bytes, and a window that starts at the first position not yet accepted. The class in
 * StreamReassembler.dfy keeps merged intervals instead, and is proved to compute this.
 */
module Assembly {
  import opened Numbers

  /** held: every byte ever accepted, by position; popped: how many of them the reader has taken. */
  datatype Assembly = Assembly(held: map<nat, byte>, popped: nat, capacity: nat, endIdx: nat, ended: bool, error: bool)

  function Empty(capacity: nat): Assembly { Assembly(map[], 0, capacity, INT32_MAX, false, false) }

  predicate Between(lo: nat, hi: nat, i: nat) { lo <= i < hi }

  function Range(lo: nat, hi: nat): set<nat> { set i: nat | lo <= i < hi && Between(lo, hi, i) }

  /** The first position at or after k that is not in keys. */
  function NextMissing(keys: set<nat>, k: nat): (r: nat)
    ensures k <= r && r !in keys && forall i :: k <= i < r ==> i in keys
    decreases keys - Range(0, k)
  {
    if k in keys then
      assert k in keys - Range(0, k);
      NextMissing(keys, k + 1)
    else k
  }

  function Cur(a: Assembly): nat { NextMissing(a.held.Keys, 0) }

  /** First position beyond the receive window. */
  function MaxIdx(a: Assembly): nat { a.popped + a.capacity }

  /** Accepted positions that are still waiting for an earlier byte. */
  function Pending(a: Assembly): set<nat> { set i | i in a.held.Keys && Cur(a) <= i }

  /** Everything written to the output stream so far. */
  function Output(a: Assembly): (s: seq<byte>)
    ensures |s| == Cur(a)
  {
    seq(Cur(a), i requires 0 <= i < Cur(a) => a.held[i])
  }

  ghost predicate Valid(a: Assembly) {
    && a.popped <= Cur(a)
    && forall i :: i in a.held ==> i < MaxIdx(a)
  }

  /** The stored run that reaches up to lo goes on without a gap up to i, so its own byte at i stays. */
  predicate Kept(held: map<nat, byte>, lo: nat, i: nat) {
    lo > 0 && forall j :: lo - 1 <= j <= i ==> j in held
  }

  /** Add the bytes of data (which starts at index) that fall in lo..hi. */
  function Accept(held: map<nat, byte>, data: seq<byte>, index: nat, lo: nat, hi: nat): map<nat, byte>
    requires index <= lo <= hi <= index + |data|
  {
    map i | i in held.Keys + Range(lo, hi) ::
      if lo <= i < hi && !Kept(held, lo, i) then data[i - index] else held[i]
  }

  /** The end marker moves to the end of an eof push, in size_t arithmetic. */
  function Declare(a: Assembly, index: nat, len: nat, eof: bool): Assembly {
    if eof then a.(endIdx := (index + len) % TWO_64) else a
  }

  /** End the output once nothing is pending and the end is reached, or whenever the push said eof. */
  function Finish(b: Assembly, eof: bool): Assembly {
    if (Cur(b) >= b.endIdx || eof) && Pending(b) == {} then b.(ended := true) else b
  }

  function Push(a: Assembly, data: seq<byte>, index: nat, eof: bool): Assembly
    requires Valid(a)
  {
    var d := Declare(a, index, |data|, eof);
    if index > MaxIdx(a) then d
    else if index + |data| <= Cur(a) then Finish(d, false)
    else
      LemmaCurInWindow(a);
      Finish(d.(held := Accept(a.held, data, index, Max(index, Cur(a)), Min(index + |data|, MaxIdx(a)))), eof)
  }

  function Pop(a: Assembly, len: nat): Assembly
    requires Valid(a)
  {
    a.(popped := a.popped + Min(len, Cur(a) - a.popped))
  }

  lemma LemmaCurInWindow(a: Assembly)
    requires Valid(a)
    ensures Cur(a) <= MaxIdx(a)
  {
    if Cur(a) > 0 {
      assert Cur(a) - 1 in a.held;
    }
  }

  // ---- What one push does ----

  /** Positions of a push that the window lets in. */
  predicate Covers(a: Assembly, len: nat, index: nat, i: nat) {
    index <= i < index + len && i < MaxIdx(a)
  }

  /** A push adds exactly the positions it covers below the window's edge, whatever is stored already. */
  lemma PushAccepts(a: Assembly, data: seq<byte>, index: nat, eof: bool)
    requires Valid(a)
    ensures var b := Push(a, data, index, eof);
            && (forall i: nat :: i in b.held <==> i in a.held || Covers(a, |data|, index, i))
            && MaxIdx(b) == MaxIdx(a) && b.popped == a.popped
  {
    LemmaCurInWindow(a);
  }

  lemma NextMissingMonotone(x: set<nat>, y: set<nat>)
    requires x <= y
    ensures NextMissing(x, 0) <= NextMissing(y, 0)
  {
  }

  lemma PushKeepsValid(a: Assembly, data: seq<byte>, index: nat, eof: bool)
    requires Valid(a)
    ensures Valid(Push(a, data, index, eof)) && Cur(a) <= Cur(Push(a, data, index, eof))
  {
    PushAccepts(a, data, index, eof);
    NextMissingMonotone(a.held.Keys, Push(a, data, index, eof).held.Keys);
  }

  /** Bytes already delivered never change, whatever is pushed later. */
  lemma PushExtendsOutput(a: Assembly, data: seq<byte>, index: nat, eof: bool)
    requires Valid(a)
    ensures Output(a) <= Output(Push(a, data, index, eof))
  {
    PushKeepsValid(a, data, index, eof);
    LemmaCurInWindow(a);
  }

  lemma {:induction false} SizeOfRange(lo: nat, hi: nat)
    requires lo <= hi
    ensures |Range(lo, hi)| == hi - lo
    decreases hi - lo
  {
    if lo < hi {
      SizeOfRange(lo + 1, hi);
      assert Range(lo, hi) == {lo} + Range(lo + 1, hi);
    } else {
      assert Range(lo, hi) == {};
    }
  }

  lemma SubsetSize(x: set<nat>, y: set<nat>)
    requires x <= y
    ensures |x| <= |y|
  {
    assert y == x + (y - x);
  }

  /** Memory bound: bytes waiting for the reader plus bytes waiting for a gap never exceed the capacity. */
  lemma CapacityBound(a: Assembly)
    requires Valid(a)
    ensures (Cur(a) - a.popped) + |Pending(a)| <= a.capacity
  {
    LemmaCurInWindow(a);
    SizeOfRange(Cur(a), MaxIdx(a));
    SubsetSize(Pending(a), Range(Cur(a), MaxIdx(a)));
  }

  // ---- Excerpts of one stream ----

  ghost predicate Excerpt(s: seq<byte>, data: seq<byte>, index: nat) {
    index + |data| <= |s| && s[index..index + |data|] == data
  }

  /** Every accepted byte is the stream's byte at that position. */
  ghost predicate Carries(a: Assembly, s: seq<byte>) {
    forall i :: i in a.held ==> i < |s| && a.held[i] == s[i]
  }

  lemma ExcerptAt(s: seq<byte>, data: seq<byte>, index: nat, i: nat)
    requires Excerpt(s, data, index) && index <= i < index + |data|
    ensures i < |s| && data[i - index] == s[i]
  {
    assert s[index..index + |data|][i - index] == s[i];
  }

  lemma AcceptCarries(held: map<nat, byte>, s: seq<byte>, data: seq<byte>, index: nat, lo: nat, hi: nat)
    requires index <= lo <= hi <= index + |data| && (Excerpt(s, data, index) || data == [])
    requires forall i :: i in held ==> i < |s| && held[i] == s[i]
    ensures var x := Accept(held, data, index, lo, hi);
            forall i :: i in x ==> i < |s| && x[i] == s[i]
  {
    var x := Accept(held, data, index, lo, hi);
    forall i | i in x
      ensures i < |s| && x[i] == s[i]
    {
      if lo <= i < hi {
        ExcerptAt(s, data, index, i);
      }
    }
  }

  lemma PushHeld(a: Assembly, data: seq<byte>, index: nat, eof: bool)
    requires Valid(a)
    ensures var held := Push(a, data, index, eof).held;
            if index <= MaxIdx(a) && index + |data| > Cur(a)
            then Cur(a) <= MaxIdx(a)
                 && held == Accept(a.held, data, index, Max(index, Cur(a)), Min(index + |data|, MaxIdx(a)))
            else held == a.held
  {
    LemmaCurInWindow(a);
  }

  lemma PushCarries(a: Assembly, s: seq<byte>, data: seq<byte>, index: nat, eof: bool)
    requires Valid(a) && Carries(a, s)
    requires Excerpt(s, data, index) || data == []
    ensures Carries(Push(a, data, index, eof), s)
  {
    PushHeld(a, data, index, eof);
    if index <= MaxIdx(a) && index + |data| > Cur(a) {
      AcceptCarries(a.held, s, data, index, Max(index, Cur(a)), Min(index + |data|, MaxIdx(a)));
    }
  }

  /** What reaches the reader is a prefix of the stream. */
  lemma CarriesGivesPrefix(a: Assembly, s: seq<byte>)
    requires Carries(a, s)
    ensures Output(a) <= s && Output(a) == s[..Cur(a)]
  {
    if Cur(a) > 0 {
      assert Cur(a) - 1 in a.held;
    }
  }

  // ---- Whole runs ----

  datatype Op = Arrive(data: seq<byte>, index: nat, eof: bool) | Take(len: nat)

  function Step(a: Assembly, op: Op): (b: Assembly)
    requires Valid(a)
    ensures Valid(b) && b.capacity == a.capacity
  {
    match op
    case Arrive(data, index, eof) => PushKeepsValid(a, data, index, eof); Push(a, data, index, eof)
    case Take(len) => Pop(a, len)
  }

  /** The state after a list of arrivals and reads. */
  function Run(a: Assembly, ops: seq<Op>): (b: Assembly)
    requires Valid(a)
    ensures Valid(b) && b.capacity == a.capacity
  {
    if ops == [] then a else Step(Run(a, ops[..|ops| - 1]), ops[|ops| - 1])
  }

  /** The k-th event brought position i while it lay below bytes read + capacity. */
  ghost predicate AcceptedAt(a: Assembly, ops: seq<Op>, k: nat, i: nat)
    requires Valid(a) && k < |ops|
  {
    ops[k].Arrive? && Covers(Run(a, ops[..k]), |ops[k].data|, ops[k].index, i)
  }

  ghost predicate Accepted(a: Assembly, ops: seq<Op>, i: nat)
    requires Valid(a)
  {
    exists k :: 0 <= k < |ops| && AcceptedAt(a, ops, k, i)
  }

  /** What is held is exactly what some arrival brought inside the window of its moment. */
  lemma {:induction false} HeldIsHistory(a: Assembly, ops: seq<Op>)
    requires Valid(a)
    ensures forall i: nat :: i in Run(a, ops).held
              <==> i in a.held || Accepted(a, ops, i)
  {
    if ops != [] {
      var n := |ops| - 1;
      var before, was := ops[..n], Run(a, ops[..n]);
      HeldIsHistory(a, before);
      assert forall k :: 0 <= k < n ==> before[..k] == ops[..k];
      if ops[n].Arrive? {
        PushAccepts(was, ops[n].data, ops[n].index, ops[n].eof);
      }
      forall i: nat
        ensures i in Run(a, ops).held
                <==> i in a.held || Accepted(a, ops, i)
      {
        if i in was.held && i !in a.held {
          var k :| 0 <= k < n && AcceptedAt(a, before, k, i);
          assert AcceptedAt(a, ops, k, i);
        }
        if k :| 0 <= k < |ops| && AcceptedAt(a, ops, k, i) {
          assert k < n ==> AcceptedAt(a, before, k, i);
        }
        if i in Run(a, ops).held && i !in was.held {
          assert AcceptedAt(a, ops, n, i);
        }
      }
    }
  }

  ghost predicate ExcerptsOf(s: seq<byte>, ops: seq<Op>) {
    forall op :: op in ops && op.Arrive? ==> Excerpt(s, op.data, op.index)
  }

  lemma {:induction false} RunCarries(a: Assembly, s: seq<byte>, ops: seq<Op>)
    requires Valid(a) && Carries(a, s) && ExcerptsOf(s, ops)
    ensures Carries(Run(a, ops), s)
  {
    if ops != [] {
      var op := ops[|ops| - 1];
      assert op in ops;
      RunCarries(a, s, ops[..|ops| - 1]);
      if op.Arrive? {
        PushCarries(Run(a, ops[..|ops| - 1]), s, op.data, op.index, op.eof);
      }
    }
  }

  /**
   * Refinement over any interleaving of excerpts and reads, from an empty reassembler: the output
   * is the stream up to the first position never accepted, and each pending byte is the stream's.
   */
  lemma OutputIsPrefixUpToFirstGap(capacity: nat, s: seq<byte>, ops: seq<Op>)
    requires ExcerptsOf(s, ops)
    ensures var a, z := Empty(capacity), Run(Empty(capacity), ops);
            && Cur(z) <= |s| && Output(z) == s[..Cur(z)]
            && !Accepted(a, ops, Cur(z)) && (forall i: nat :: i < Cur(z) ==> Accepted(a, ops, i))
            && (forall i :: i in Pending(z) ==> i < |s| && z.held[i] == s[i])
            && (Cur(z) - z.popped) + |Pending(z)| <= capacity
  {
    var a, z := Empty(capacity), Run(Empty(capacity), ops);
    HeldIsHistory(a, ops);
    RunCarries(a, s, ops);
    CarriesGivesPrefix(z, s);
    CapacityBound(z);
  }

  ghost predicate OnlyArrivals(ops: seq<Op>) { forall op :: op in ops ==> op.Arrive? }

  /** Without a read in between the window stands still, so acceptance does not look at the order. */
  lemma {:induction false} ArrivalsAccept(a: Assembly, ops: seq<Op>)
    requires Valid(a) && OnlyArrivals(ops)
    ensures Run(a, ops).popped == a.popped
    ensures forall i: nat :: i in Run(a, ops).held
              <==> i in a.held || exists op :: op in ops && Covers(a, |op.data|, op.index, i)
  {
    if ops != [] {
      var before, op := ops[..|ops| - 1], ops[|ops| - 1];
      assert forall o :: o in ops <==> o in before || o == op;
      ArrivalsAccept(a, before);
      PushAccepts(Run(a, before), op.data, op.index, op.eof);
    }
  }

  /** Arrival order does not matter: any reordering leaves the same bytes accepted, delivered and pending. */
  lemma OrderIndependence(a: Assembly, s: seq<byte>, ps: seq<Op>, qs: seq<Op>)
    requires Valid(a) && Carries(a, s) && OnlyArrivals(ps) && ExcerptsOf(s, ps)
    requires multiset(ps) == multiset(qs)
    ensures Run(a, ps).held == Run(a, qs).held
    ensures Output(Run(a, ps)) == Output(Run(a, qs))
    ensures Pending(Run(a, ps)) == Pending(Run(a, qs))
  {
    forall p: Op
      ensures p in ps <==> p in qs
    {
      assert p in ps <==> p in multiset(ps);
      assert p in qs <==> p in multiset(qs);
    }
    ArrivalsAccept(a, ps);
    ArrivalsAccept(a, qs);
    RunCarries(a, s, ps);
    RunCarries(a, s, qs);
    var x, y := Run(a, ps).held, Run(a, qs).held;
    assert forall i: nat :: i in x <==> i in y;
    assert x == y;
  }

  // ---- The end of the stream ----

  /** The output is ended exactly when the end (at position e) was declared and everything before it arrived. */
  ghost predicate EndExact(a: Assembly, e: nat, declared: bool) {
    && a.endIdx == (if declared then e else INT32_MAX)
    && (a.ended <==> declared && Cur(a) == e)
  }

  /** No byte lies at or beyond e, and e is below the sentinel that means "no end seen". */
  ghost predicate EndsAt(a: Assembly, e: nat) {
    e < INT32_MAX && forall i :: i in a.held ==> i < e
  }

  /** After the push no accepted byte would be waiting for an earlier one. */
  ghost predicate LeavesNoGap(a: Assembly, len: nat, index: nat) {
    forall i, j: nat :: j < i && (i in a.held || Covers(a, len, index, i))
                        ==> j in a.held || Covers(a, len, index, j)
  }

  /**
   * The eof pushes that end the stream too early: cut off at the window's edge, or empty and ahead
   * of missing bytes, while nothing would stay waiting for a gap.
   */
  ghost predicate EndsEarly(a: Assembly, len: nat, index: nat, eof: bool) {
    && eof && index <= MaxIdx(a) && Cur(a) < index + len
    && (index + len > MaxIdx(a) || len == 0)
    && LeavesNoGap(a, len, index)
  }

  lemma NoGapIff(a: Assembly, data: seq<byte>, index: nat, eof: bool)
    requires Valid(a)
    ensures LeavesNoGap(a, |data|, index) <==> Pending(Push(a, data, index, eof)) == {}
  {
    var b := Push(a, data, index, eof);
    PushAccepts(a, data, index, eof);
    if Pending(b) == {} {
      forall i, j: nat | j < i && (i in a.held || Covers(a, |data|, index, i))
        ensures j in a.held || Covers(a, |data|, index, j)
      {
        assert i in b.held && i !in Pending(b);
        assert j in b.held;
      }
    }
    if LeavesNoGap(a, |data|, index) {
      var c := Cur(b);
      assert c !in a.held && !Covers(a, |data|, index, c);
      forall i | i in b.held
        ensures i < c
      {
        assert i != c;
      }
    }
  }

  lemma PushStaysBelowEnd(a: Assembly, data: seq<byte>, index: nat, eof: bool, e: nat)
    requires Valid(a) && EndsAt(a, e) && index + |data| <= e
    ensures EndsAt(Push(a, data, index, eof), e)
    ensures Cur(Push(a, data, index, eof)) <= e
  {
    var b := Push(a, data, index, eof);
    PushAccepts(a, data, index, eof);
    assert Cur(b) > e ==> e in b.held;
  }

  lemma CurAtEndIsAll(a: Assembly, e: nat)
    requires EndsAt(a, e) && Cur(a) == e
    ensures Pending(a) == {}
  {
  }

  /** A push that reaches past the current position, step by step. */
  lemma EndExactForNewBytes(a: Assembly, data: seq<byte>, index: nat, eof: bool, e: nat, declared: bool)
    requires Valid(a) && EndsAt(a, e) && EndExact(a, e, declared)
    requires index + |data| <= e && (eof ==> index + |data| == e)
    requires index <= MaxIdx(a) && Cur(a) < index + |data|
    ensures EndExact(Push(a, data, index, eof), e, declared || eof)
            <==> (eof && Pending(Push(a, data, index, eof)) == {} ==> Cur(Push(a, data, index, eof)) == e)
  {
    var b := Push(a, data, index, eof);
    PushStaysBelowEnd(a, data, index, eof, e);
    if Cur(b) == e {
      CurAtEndIsAll(b, e);
    }
  }

  /** For such an eof push, draining everything without reaching the end means it was clipped or empty. */
  lemma DrainedShortIff(a: Assembly, data: seq<byte>, index: nat, e: nat)
    requires Valid(a) && EndsAt(a, e)
    requires index + |data| == e && index <= MaxIdx(a) && Cur(a) < e
    requires Pending(Push(a, data, index, true)) == {}
    ensures Cur(Push(a, data, index, true)) != e <==> e > MaxIdx(a) || |data| == 0
  {
    var b := Push(a, data, index, true);
    PushAccepts(a, data, index, true);
    PushKeepsValid(a, data, index, true);
    PushStaysBelowEnd(a, data, index, true, e);
    LemmaCurInWindow(b);
    if |data| == 0 {
      assert b.held.Keys == a.held.Keys;
    } else if e <= MaxIdx(a) {
      assert Covers(a, |data|, index, e - 1);
      assert e - 1 in b.held && e - 1 !in Pending(b);
    }
  }

  /** One push keeps the end exact if and only if it is not an early-ending one. */
  lemma EndExactIff(a: Assembly, data: seq<byte>, index: nat, eof: bool, e: nat, declared: bool)
    requires Valid(a) && EndsAt(a, e) && EndExact(a, e, declared)
    requires index + |data| <= e && (eof ==> index + |data| == e)
    ensures EndExact(Push(a, data, index, eof), e, declared || eof)
            <==> !EndsEarly(a, |data|, index, eof)
  {
    LemmaCurInWindow(a);
    if Cur(a) < index + |data| && index <= MaxIdx(a) {
      EndExactForNewBytes(a, data, index, eof, e, declared);
      NoGapIff(a, data, index, eof);
      if eof && Pending(Push(a, data, index, eof)) == {} {
        DrainedShortIff(a, data, index, e);
      }
    } else {
      PushStaysBelowEnd(a, data, index, eof, e);
      if Cur(a) == e {
        CurAtEndIsAll(a, e);
      }
    }
  }

  /** An empty push that is not the end changes nothing about the end, wherever it points. */
  lemma EmptyPushKeepsEnd(a: Assembly, index: nat, e: nat, declared: bool)
    requires Valid(a) && EndsAt(a, e) && EndExact(a, e, declared)
    ensures EndExact(Push(a, [], index, false), e, declared)
  {
    PushAccepts(a, [], index, false);
    assert Push(a, [], index, false).held.Keys == a.held.Keys;
    assert e !in a.held;
  }

  /** Some arrival in the list carried the end-of-stream mark. */
  ghost predicate Declared(ops: seq<Op>) { exists op :: op in ops && op.Arrive? && op.eof }

  ghost predicate PiecesEndAt(ops: seq<Op>, e: nat) {
    forall op :: op in ops && op.Arrive? ==> op.index + |op.data| <= e && (op.eof ==> op.index + |op.data| == e)
  }

  /** No arrival in the list was an early-ending one at its moment. */
  ghost predicate NoneEndsEarly(a: Assembly, ops: seq<Op>)
    requires Valid(a)
  {
    ops == [] ||
    var n := |ops| - 1;
    && NoneEndsEarly(a, ops[..n])
    && (ops[n].Arrive? ==> !EndsEarly(Run(a, ops[..n]), |ops[n].data|, ops[n].index, ops[n].eof))
  }

  lemma EndExactStepIff(a: Assembly, op: Op, e: nat, declared: bool)
    requires Valid(a) && EndsAt(a, e) && EndExact(a, e, declared)
    requires PiecesEndAt([op], e)
    ensures EndsAt(Step(a, op), e)
    ensures EndExact(Step(a, op), e, declared || (op.Arrive? && op.eof))
            <==> (op.Arrive? ==> !EndsEarly(a, |op.data|, op.index, op.eof))
  {
    assert op in [op];
    if op.Arrive? {
      EndExactIff(a, op.data, op.index, op.eof, e, declared);
      PushStaysBelowEnd(a, op.data, op.index, op.eof, e);
    }
  }

  /** After every event of the list, the output is ended exactly when the end has been declared and reached. */
  ghost predicate AlwaysExact(a: Assembly, ops: seq<Op>, e: nat)
    requires Valid(a)
  {
    && EndExact(Run(a, ops), e, Declared(ops))
    && (ops != [] ==> AlwaysExact(a, ops[..|ops| - 1], e))
  }

  lemma DeclaredSnoc(ops: seq<Op>)
    requires ops != []
    ensures var op := ops[|ops| - 1];
            Declared(ops) <==> Declared(ops[..|ops| - 1]) || (op.Arrive? && op.eof)
  {
    var before, op := ops[..|ops| - 1], ops[|ops| - 1];
    assert forall o :: o in ops <==> o in before || o == op;
  }

  /** Over any run the end is exact throughout if and only if no arrival was an early-ending one at its moment. */
  lemma {:induction false} EndExactOverRunsIff(a: Assembly, ops: seq<Op>, e: nat)
    requires Valid(a) && EndsAt(a, e) && EndExact(a, e, false)
    requires PiecesEndAt(ops, e)
    ensures AlwaysExact(a, ops, e) <==> NoneEndsEarly(a, ops)
    ensures AlwaysExact(a, ops, e) ==> EndsAt(Run(a, ops), e)
  {
    if ops == [] {
      assert !Declared(ops);
    } else {
      var n := |ops| - 1;
      var before, op := ops[..n], ops[n];
      EndExactOverRunsIff(a, before, e);
      assert op in ops;
      DeclaredSnoc(ops);
      if AlwaysExact(a, before, e) {
        EndExactStepIff(Run(a, before), op, e, Declared(before));
      }
    }
  }

  /** Two bytes are missing, an empty eof push arrives ahead of them, and the output ends with nothing in it. */
  lemma EmptyEofAheadEndsEarly()
    ensures var b := Push(Empty(10), [], 2, true);
            b.ended && Output(b) == [] && b.endIdx == 2
  {
  }

  /** An eof push of three bytes into a two-byte window ends the output after two. */
  lemma ClippedEofEndsEarly(x: byte, y: byte, z: byte)
    ensures var b := Push(Empty(2), [x, y, z], 0, true);
            b.ended && Output(b) == [x, y] && b.endIdx == 3
  {
    var b := Push(Empty(2), [x, y, z], 0, true);
    PushAccepts(Empty(2), [x, y, z], 0, true);
    assert 0 in b.held && 1 in b.held && 2 !in b.held;
    assert NextMissing(b.held.Keys, 2) == 2 == NextMissing(b.held.Keys, 1);
  }

  /**
   * The sentinel is an ordinary position: a push that is not the end, on a stream whose end is not known, ends
   * the output if and only if it leaves no gap and the current position reaches the sentinel.
   */
  lemma SentinelEndsStreamIff(a: Assembly, data: seq<byte>, index: nat)
    requires Valid(a) && a.endIdx == INT32_MAX
    ensures Push(a, data, index, false).ended <==>
            || a.ended
            || (index <= MaxIdx(a) && LeavesNoGap(a, |data|, index) && Cur(Push(a, data, index, false)) >= INT32_MAX)
  {
    NoGapIff(a, data, index, false);
    PushHeld(a, data, index, false);
  }

  /** INT32_MAX zero bytes. */
  function LongPush(): (s: seq<byte>)
    ensures |s| == INT32_MAX
  {
    seq(INT32_MAX, _ => 0)
  }

  /** For instance, by INT32_MAX bytes pushed at once into a new reassembler, none of them marked as the last. */
  lemma LongPushEndsStream()
    ensures var b := Push(Empty(INT32_MAX), LongPush(), 0, false);
            b.ended && |Output(b)| == INT32_MAX
  {
    var a, s := Empty(INT32_MAX), LongPush();
    var b := Push(a, s, 0, false);
    PushAccepts(a, s, 0, false);
    assert !Covers(a, |s|, 0, Cur(b));
    assert Cur(b) > INT32_MAX ==> INT32_MAX in b.held;
    assert LeavesNoGap(a, |s|, 0);
    SentinelEndsStreamIff(a, s, 0);
  }
}
