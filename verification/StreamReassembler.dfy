/** The reassembler itself (stream_reassembler.cc), proved to compute the Assembly model. */
module StreamReassembler {
  import opened Numbers
  import opened Intervals
  import opened BS = ByteStream
  import A = Assembly

  /** The bytes of a written history, by position. */
  function HistoryMap(h: seq<byte>): (m: map<nat, byte>)
    ensures forall i: nat :: i in m <==> i < |h|
    ensures forall i: nat :: i in m ==> m[i] == h[i]
  {
    map i: nat | i < |h| && i in A.Range(0, |h|) :: h[i]
  }

  /** Everything accepted: what was written to the output, and what the stored blocks hold. */
  function Held(h: seq<byte>, nodes: seq<Node>): map<nat, byte> { HistoryMap(h) + View(nodes) }

  /** Stored blocks start after the first missing byte and end inside the window. */
  ghost predicate Stored(h: seq<byte>, nodes: seq<Node>, max: nat) {
    Separated(nodes) && |h| <= max && InBounds(nodes, |h| + 1, max)
  }

  lemma ViewBounds(nodes: seq<Node>, lo: nat, hi: nat)
    requires InBounds(nodes, lo, hi)
    ensures forall i :: i in View(nodes) ==> lo <= i < hi
  {
    forall i | i in View(nodes)
      ensures lo <= i < hi
    {
      var k := OwnerOf(nodes, i);
      assert nodes[k] in nodes;
    }
  }

  lemma CurIs(keys: set<nat>, c: nat)
    requires c !in keys && forall i: nat :: i < c ==> i in keys
    ensures A.NextMissing(keys, 0) == c
  {
  }

  /** The model's current position and pending set, read off the concrete fields. */
  lemma ModelFacts(a: A.Assembly, h: seq<byte>, nodes: seq<Node>)
    requires a.held == Held(h, nodes) && a.popped <= |h|
    requires Stored(h, nodes, A.MaxIdx(a))
    ensures A.Valid(a) && A.Cur(a) == |h| && A.Output(a) == h
    ensures A.Pending(a) == View(nodes).Keys && |A.Pending(a)| == Sum(nodes)
  {
    ViewBounds(nodes, |h| + 1, A.MaxIdx(a));
    CurIs(a.held.Keys, |h|);
    ViewSize(nodes);
    assert forall i: nat :: i in a.held.Keys <==> i < |h| || i in View(nodes);
  }

  lemma EndIsMissing(nodes: seq<Node>, k: nat)
    requires Separated(nodes) && k < |nodes|
    ensures nodes[k].End() !in View(nodes)
  {
    if nodes[k].End() in View(nodes) {
      var j := OwnerOf(nodes, nodes[k].End());
      assert false;
    }
  }

  /** A stored run reaches from just before lo to i exactly when one block that starts before lo holds i. */
  lemma KeptIff(h: seq<byte>, nodes: seq<Node>, lo: nat, i: nat, max: nat)
    requires Stored(h, nodes, max) && |h| <= lo <= i
    ensures A.Kept(Held(h, nodes), lo, i) <==> KeepsOld(nodes, lo, i)
  {
    var held := Held(h, nodes);
    ViewBounds(nodes, |h| + 1, max);
    if KeepsOld(nodes, lo, i) {
      var k :| 0 <= k < |nodes| && nodes[k].idx < lo && nodes[k].Has(i);
      assert nodes[k] in nodes;
      forall j | lo - 1 <= j <= i
        ensures j in held
      {
        ViewAt(nodes, k, j);
      }
    }
    if A.Kept(held, lo, i) {
      assert |h| !in held;
      assert lo - 1 in held;
      var k := OwnerOf(nodes, lo - 1);
      EndIsMissing(nodes, k);
      assert nodes[k] in nodes && nodes[k].End() !in held;
      assert nodes[k].Has(i);
    }
  }

  lemma SameMap(x: map<nat, byte>, y: map<nat, byte>)
    requires forall i: nat :: i in x <==> i in y
    requires forall i: nat :: i in x && i in y ==> x[i] == y[i]
    ensures x == y
  {
  }

  /** The model's accepted bytes at one position. */
  lemma AcceptAt(held: map<nat, byte>, data: seq<byte>, index: nat, lo: nat, hi: nat, i: nat)
    requires index <= lo <= hi <= index + |data|
    ensures var x := A.Accept(held, data, index, lo, hi);
            && (i in x <==> i in held || lo <= i < hi)
            && (lo <= i < hi && !A.Kept(held, lo, i) ==> x[i] == data[i - index])
            && (i in x && !(lo <= i < hi && !A.Kept(held, lo, i)) ==> i in held && x[i] == held[i])
  {
    assert lo <= i <= hi && A.Kept(held, lo, i) ==> i in held;
  }

  /** Overlaying the stored bytes before or after the block is merged in makes no difference at one position. */
  lemma OverlayAt(hist: map<nat, byte>, stored: map<nat, byte>, merged: map<nat, byte>, x: map<nat, byte>, i: nat,
                  taken: bool, b: byte)
    requires i in x <==> i in hist + stored || taken || i in merged
    requires i in stored ==> i in merged
    requires taken ==> i in merged && merged[i] == b && x[i] == b
    requires !taken && i in merged ==> i in stored && merged[i] == stored[i]
    requires !taken && i in x ==> i in hist + stored && x[i] == (hist + stored)[i]
    ensures (i in x <==> i in hist + merged) && (i in x ==> x[i] == (hist + merged)[i])
  {
  }

  lemma MergedAt(nodes: seq<Node>, block: Node, merged: map<nat, byte>, i: nat)
    requires IsMerge(nodes, block, merged)
    ensures i in merged <==> i in View(nodes) || block.Has(i)
    ensures block.Has(i) && !KeepsOld(nodes, block.idx, i) ==> merged[i] == NodeMap(block)[i]
    ensures i in merged && !(block.Has(i) && !KeepsOld(nodes, block.idx, i))
            ==> i in View(nodes) && merged[i] == View(nodes)[i]
  {
  }

  lemma ClipBothSides(data: seq<byte>, a: nat, b: nat)
    requires a <= b <= |data|
    ensures data[..b][a..] == data[a..b] && data[..b][0..] == data[..b] && data[..|data|] == data
  {
  }

  lemma ClippedAt(data: seq<byte>, index: nat, lo: nat, hi: nat, i: nat)
    requires index <= lo <= hi <= index + |data|
    ensures var block := Node(lo, data[lo - index..hi - index]);
            && (block.Has(i) <==> lo <= i < hi)
            && (block.Has(i) ==> NodeMap(block)[i] == data[i - index])
  {
    var block := Node(lo, data[lo - index..hi - index]);
    if block.Has(i) {
      assert block.data[i - lo] == data[i - index];
    }
  }

  lemma InsertAcceptsAt(h: seq<byte>, nodes: seq<Node>, max: nat, data: seq<byte>, index: nat, lo: nat, hi: nat,
                        merged: seq<Node>, i: nat)
    requires Stored(h, nodes, max)
    requires index <= lo <= hi <= index + |data| && |h| <= lo
    requires IsMerge(nodes, Node(lo, data[lo - index..hi - index]), View(merged))
    ensures var x, y := A.Accept(Held(h, nodes), data, index, lo, hi), Held(h, merged);
            (i in x <==> i in y) && (i in x && i in y ==> x[i] == y[i])
  {
    var block := Node(lo, data[lo - index..hi - index]);
    AcceptAt(Held(h, nodes), data, index, lo, hi, i);
    MergedAt(nodes, block, View(merged), i);
    ClippedAt(data, index, lo, hi, i);
    if lo <= i < hi {
      KeptIff(h, nodes, lo, i, max);
    }
    OverlayAt(HistoryMap(h), View(nodes), View(merged), A.Accept(Held(h, nodes), data, index, lo, hi), i,
              lo <= i < hi && !KeepsOld(nodes, lo, i), if lo <= i < hi then data[i - index] else 0);
  }

  /** Merging the clipped block into the stored set is what the model calls accepting it. */
  lemma InsertAccepts(h: seq<byte>, nodes: seq<Node>, max: nat, data: seq<byte>, index: nat, lo: nat, hi: nat,
                      block: Node, merged: seq<Node>)
    requires Stored(h, nodes, max)
    requires index <= lo <= hi <= index + |data| && |h| <= lo
    requires block == Node(lo, data[lo - index..hi - index]) && IsMerge(nodes, block, View(merged))
    ensures A.Accept(Held(h, nodes), data, index, lo, hi) == Held(h, merged)
  {
    var x, y := A.Accept(Held(h, nodes), data, index, lo, hi), Held(h, merged);
    forall i: nat
      ensures (i in x <==> i in y) && (i in x && i in y ==> x[i] == y[i])
    {
      InsertAcceptsAt(h, nodes, max, data, index, lo, hi, merged, i);
    }
    SameMap(x, y);
  }

  lemma DrainHeld(h: seq<byte>, n: Node, rest: map<nat, byte>)
    requires n.idx == |h| && rest.Keys !! NodeMap(n).Keys
    ensures HistoryMap(h + n.data) + rest == HistoryMap(h) + (rest + NodeMap(n))
  {
    var x, y := HistoryMap(h + n.data) + rest, HistoryMap(h) + (rest + NodeMap(n));
    assert forall i: nat :: n.Has(i) <==> |h| <= i < |h + n.data|;
    SameMap(x, y);
  }

  lemma DrainStored(h: seq<byte>, nodes: seq<Node>, max: nat)
    requires Separated(nodes) && InBounds(nodes, |h|, max) && nodes != [] && nodes[0].idx == |h|
    ensures Stored(h + nodes[0].data, nodes[1..], max)
  {
    assert nodes[0] in nodes;
    forall n | n in nodes[1..]
      ensures |h + nodes[0].data| + 1 <= n.idx && n.End() <= max
    {
      assert n in nodes;
      var i :| 0 <= i < |nodes[1..]| && nodes[1..][i] == n;
      assert nodes[0].End() < nodes[i + 1].idx;
    }
  }

  /** Moving the first block to the output changes neither the accepted bytes nor the rest of the set. */
  lemma DrainFirst(h: seq<byte>, nodes: seq<Node>, max: nat)
    requires Separated(nodes) && InBounds(nodes, |h|, max) && nodes != [] && nodes[0].idx == |h|
    ensures Held(h + nodes[0].data, nodes[1..]) == Held(h, nodes)
    ensures Stored(h + nodes[0].data, nodes[1..], max)
    ensures Sum(nodes) == |nodes[0].data| + Sum(nodes[1..])
  {
    ViewWithout(nodes, 0);
    assert Without(nodes, 0) == nodes[1..];
    DrainHeld(h, nodes[0], View(nodes[1..]));
    DrainStored(h, nodes, max);
  }

  /** The model's push, once past both early exits. */
  lemma PushOfNewBytes(a: A.Assembly, data: seq<byte>, index: nat, eof: bool, cur: nat, max: nat)
    requires A.Valid(a) && cur == A.Cur(a) && max == A.MaxIdx(a)
    requires index <= max && cur < index + |data|
    ensures cur <= max
    ensures var d := A.Declare(a, index, |data|, eof);
            A.Push(a, data, index, eof)
            == A.Finish(d.(held := A.Accept(d.held, data, index, Max(index, cur), Min(index + |data|, max))), eof)
  {
    A.LemmaCurInWindow(a);
  }

  /** Cut a block to the window, right side first (lines 58-69). */
  method Clip(data: seq<byte>, index: nat, cur: nat, max: nat) returns (block: Node)
    requires index <= max && cur < index + |data| && cur <= max
    ensures var lo, hi := Max(index, cur), Min(index + |data|, max);
            block == Node(lo, data[lo - index..hi - index]) && block.End() == hi
  {
    ClipBothSides(data, Max(index, cur) - index, Min(index + |data|, max) - index);
    block := Node(index, data);
    if block.End() > max {
      block := Node(index, block.data[..max - index]);
    }
    if block.idx < cur {
      block := Node(cur, block.data[cur - index..]);
    }
  }

  lemma WiderBounds(nodes: seq<Node>, lo: nat, hi: nat)
    requires InBounds(nodes, lo + 1, hi)
    ensures InBounds(nodes, lo, hi)
  {
  }

  /** Clip a block and merge it into the stored ones (lines 58-96). */
  method MergeIn(ghost h: seq<byte>, nodes: seq<Node>, bytes: nat, data: seq<byte>, index: nat, cur: nat, max: nat)
    returns (merged: seq<Node>, count: int)
    requires Stored(h, nodes, max) && |h| == cur && bytes == Sum(nodes)
    requires index <= max && cur < index + |data|
    ensures Separated(merged) && InBounds(merged, cur, max) && count == Sum(merged)
    ensures Held(h, merged) == A.Accept(Held(h, nodes), data, index, Max(index, cur), Min(index + |data|, max))
  {
    var block := Clip(data, index, cur, max);
    WiderBounds(nodes, cur, max);
    merged, count := Insert(nodes, block, bytes + |block.data|, cur, max);
    InsertAccepts(h, nodes, max, data, index, Max(index, cur), Min(index + |data|, max), block, merged);
  }

  class StreamReassembler {
    const output: ByteStream
    const capacity: nat
    var nodes: seq<Node>
    var inputEndIdx: nat
    var unassembledBytes: nat
    var curIdx: nat

    ghost function Model(): A.Assembly
      reads this, output
    {
      A.Assembly(Held(output.history, nodes), output.readBytes, capacity, inputEndIdx, output.inputEnd, output.error)
    }

    /** What the fields keep of their own accord. */
    ghost predicate Consistent()
      reads this, output
    {
      && output.Valid() && output.capacity == capacity
      && |output.history| == curIdx
      && Stored(output.history, nodes, output.readBytes + capacity)
      && unassembledBytes == Sum(nodes)
    }

    /** The fields are consistent and present the model's position, window, output and pending bytes. */
    ghost predicate Valid()
      reads this, output
    {
      && Consistent()
      && A.Valid(Model()) && A.Cur(Model()) == curIdx && A.Output(Model()) == output.history
      && |A.Pending(Model())| == unassembledBytes
    }

    lemma ConsistentIsValid()
      requires Consistent()
      ensures Valid()
    {
      ModelFacts(Model(), output.history, nodes);
    }

    constructor (capacity: nat)
      ensures Valid() && fresh(output) && Model() == A.Empty(capacity)
    {
      this.capacity := capacity;
      output := new ByteStream(capacity);
      nodes, inputEndIdx, unassembledBytes, curIdx := [], INT32_MAX, 0, 0;
      new;
      assert Held(output.history, nodes) == map[];
      ConsistentIsValid();
    }

    /** Write the first block if it starts at the first missing byte (lines 98-106). */
    method WriteFirst()
      requires output.Valid() && output.capacity == capacity && |output.history| == curIdx
      requires Separated(nodes) && InBounds(nodes, curIdx, output.readBytes + capacity)
      requires unassembledBytes == Sum(nodes)
      modifies this`nodes, this`unassembledBytes, this`curIdx, output
      ensures Consistent() && Model() == old(Model())
    {
      if nodes != [] && nodes[0].idx == curIdx {
        DrainFirst(output.history, nodes, output.readBytes + capacity);
        var toWrite := nodes[0];
        assert toWrite in nodes;
        var written := output.Write(toWrite.data);
        assert output.history == old(output.history) + toWrite.data;
        unassembledBytes := unassembledBytes - written;
        curIdx := curIdx + written;
        nodes := nodes[1..];
      } else {
        forall n | n in nodes
          ensures curIdx + 1 <= n.idx
        {
          var i :| 0 <= i < |nodes| && nodes[i] == n;
          assert nodes[0] in nodes;
          assert i > 0 ==> nodes[0].End() < nodes[i].idx;
        }
      }
    }

    /** Clip a block to the window and merge it in (lines 58-96). */
    method MergeBlock(data: seq<byte>, index: u64, maxIdx: nat)
      requires Consistent() && maxIdx == output.readBytes + capacity
      requires index <= maxIdx && curIdx < index + |data|
      modifies this`nodes, this`unassembledBytes
      ensures output.Valid() && unassembledBytes == Sum(nodes)
      ensures Separated(nodes) && InBounds(nodes, curIdx, maxIdx)
      ensures Held(output.history, nodes)
              == A.Accept(old(Model()).held, data, index, Max(index, curIdx), Min(index + |data|, maxIdx))
    {
      nodes, unassembledBytes := MergeIn(output.history, nodes, unassembledBytes, data, index, curIdx, maxIdx);
    }

    /** Lines 53-54 and 107-110. */
    method Finish(eof: bool)
      requires Valid()
      modifies output
      ensures Valid() && Model() == A.Finish(old(Model()), eof)
    {
      if curIdx >= inputEndIdx && unassembledBytes == 0 {
        output.EndInput();
      }
      if eof && unassembledBytes == 0 {
        output.EndInput();
      }
    }

    /** Lines 47-48, in size_t arithmetic. */
    method Declare(index: u64, len: nat, eof: bool)
      requires Valid()
      modifies this`inputEndIdx
      ensures Valid() && Model() == A.Declare(old(Model()), index, len, eof)
    {
      if eof {
        inputEndIdx := (index + len) % TWO_64;
      }
    }

    /** Lines 58-110: the push reaches past the first missing byte. */
    method PushNew(data: seq<byte>, index: u64, eof: bool, maxIdx: nat)
      requires Valid() && maxIdx == A.MaxIdx(Model())
      requires index <= maxIdx && curIdx < index + |data|
      modifies this, output
      ensures Valid()
      ensures var a := old(Model());
              Model() == A.Finish(a.(held := A.Accept(a.held, data, index, Max(index, old(curIdx)),
                                                      Min(index + |data|, maxIdx))), eof)
    {
      MergeBlock(data, index, maxIdx);
      WriteFirst();
      ConsistentIsValid();
      Finish(eof);
    }

    method PushSubstring(data: seq<byte>, index: u64, eof: bool)
      requires Valid()
      requires curIdx + capacity + |data| < TWO_64  // size_t sums stay exact
      modifies this, output
      ensures Valid() && Model() == A.Push(old(Model()), data, index, eof)
    {
      ghost var a := Model();
      Declare(index, |data|, eof);
      var size := output.BufferSize();
      var maxIdx := curIdx - size + capacity;
      if index > maxIdx {
        return;
      }
      if index + |data| <= curIdx {
        Finish(false);
        return;
      }
      PushOfNewBytes(a, data, index, eof, curIdx, maxIdx);
      PushNew(data, index, eof, maxIdx);
    }

    /** The reader's side of the output stream. */
    method Read(len: nat) returns (s: seq<byte>)
      requires Valid()
      modifies output
      ensures Valid() && Model() == A.Pop(old(Model()), len)
      ensures s == A.Output(Model())[old(Model()).popped..Model().popped]
      ensures |s| == Min(len, A.Cur(old(Model())) - old(Model()).popped)
    {
      s := output.Read(len);
      ConsistentIsValid();
    }

    method UnassembledBytes() returns (n: nat)
      requires Valid()
      ensures n == |A.Pending(Model())|
    {
      n := unassembledBytes;
    }
  }
}
