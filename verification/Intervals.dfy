/** The reassembler's ordered set of stored blocks, and how a new block is merged into it (stream_reassembler.cc). */
module Intervals {
  import opened Numbers

  datatype Node = Node(idx: nat, data: seq<byte>) {
    function End(): nat { idx + |data| }

    predicate Has(i: nat) { idx <= i < End() }
  }

  /** A node as a map from stream positions to bytes. */
  function NodeMap(n: Node): (m: map<nat, byte>)
    ensures forall i: nat :: i in m <==> n.Has(i)
    ensures forall i: nat :: n.Has(i) ==> m[i] == n.data[i - n.idx]
  {
    map i: nat | n.idx <= i < n.End() && n.Has(i) :: n.data[i - n.idx]
  }

  function View(nodes: seq<Node>): map<nat, byte> {
    if nodes == [] then map[] else NodeMap(nodes[0]) + View(nodes[1..])
  }

  function Sum(nodes: seq<Node>): nat {
    if nodes == [] then 0 else |nodes[0].data| + Sum(nodes[1..])
  }

  /** In order, with at least one missing byte between neighbours. */
  ghost predicate Separated(nodes: seq<Node>) {
    forall i, j :: 0 <= i < j < |nodes| ==> nodes[i].End() < nodes[j].idx
  }

  /** The two blocks overlap or are adjacent. */
  predicate Touch(a: Node, b: Node) { a.idx <= b.End() && b.idx <= a.End() }

  function Without(nodes: seq<Node>, k: nat): seq<Node>
    requires k < |nodes|
  {
    nodes[..k] + nodes[k + 1..]
  }

  function Inserted(nodes: seq<Node>, k: nat, n: Node): seq<Node>
    requires k <= |nodes|
  {
    nodes[..k] + [n] + nodes[k..]
  }

  // ---- Views, one position at a time ----

  lemma {:induction false} ViewAt(nodes: seq<Node>, k: nat, i: nat)
    requires Separated(nodes) && k < |nodes| && nodes[k].Has(i)
    ensures i in View(nodes) && View(nodes)[i] == nodes[k].data[i - nodes[k].idx]
  {
    if k == 0 {
      if i in View(nodes[1..]) {
        var j := OwnerOf(nodes[1..], i);
        assert false;
      }
    } else {
      assert Separated(nodes[1..]);
      ViewAt(nodes[1..], k - 1, i);
    }
  }

  lemma {:induction false} OwnerOf(nodes: seq<Node>, i: nat) returns (k: nat)
    requires i in View(nodes)
    ensures k < |nodes| && nodes[k].Has(i)
  {
    if i in View(nodes[1..]) {
      k := OwnerOf(nodes[1..], i);
      k := k + 1;
    } else {
      k := 0;
    }
  }

  lemma {:induction false} SumWithout(nodes: seq<Node>, k: nat)
    requires k < |nodes|
    ensures Sum(nodes) == Sum(Without(nodes, k)) + |nodes[k].data|
  {
    if k == 0 {
      assert Without(nodes, 0) == nodes[1..];
    } else {
      SumWithout(nodes[1..], k - 1);
      assert Without(nodes, k)[1..] == Without(nodes[1..], k - 1);
    }
  }

  lemma ViewOfRest(nodes: seq<Node>, k: nat, i: nat)
    requires Separated(nodes) && k < |nodes| && i in View(Without(nodes, k)) && Separated(Without(nodes, k))
    ensures i in View(nodes) && View(nodes)[i] == View(Without(nodes, k))[i] && !nodes[k].Has(i)
  {
    var rest := Without(nodes, k);
    var j := OwnerOf(rest, i);
    var j' := if j < k then j else j + 1;
    assert rest[j] == nodes[j'];
    ViewAt(rest, j, i);
    ViewAt(nodes, j', i);
  }

  lemma ViewOrNode(nodes: seq<Node>, k: nat, i: nat)
    requires Separated(nodes) && k < |nodes| && i in View(nodes)
    requires Separated(Without(nodes, k))
    ensures i in View(Without(nodes, k)) || (nodes[k].Has(i) && View(nodes)[i] == NodeMap(nodes[k])[i])
  {
    var rest := Without(nodes, k);
    var j := OwnerOf(nodes, i);
    if j != k {
      var j' := if j < k then j else j - 1;
      assert rest[j'] == nodes[j];
      ViewAt(rest, j', i);
    } else {
      ViewAt(nodes, k, i);
    }
  }

  lemma WithoutSeparated(nodes: seq<Node>, k: nat)
    requires Separated(nodes) && k < |nodes|
    ensures Separated(Without(nodes, k))
  {
  }

  lemma MapSplits(v: map<nat, byte>, w: map<nat, byte>, m: map<nat, byte>)
    requires forall i :: i in w ==> i in v && v[i] == w[i] && i !in m
    requires forall i :: i in m ==> i in v && v[i] == m[i]
    requires forall i :: i in v ==> i in w || i in m
    ensures v == w + m && w.Keys !! m.Keys
  {
  }

  lemma RestIsDisjoint(nodes: seq<Node>, k: nat)
    requires Separated(nodes) && k < |nodes| && Separated(Without(nodes, k))
    ensures forall i :: i in View(Without(nodes, k)) ==>
              i in View(nodes) && View(nodes)[i] == View(Without(nodes, k))[i] && i !in NodeMap(nodes[k])
  {
    forall i | i in View(Without(nodes, k))
      ensures i in View(nodes) && View(nodes)[i] == View(Without(nodes, k))[i] && i !in NodeMap(nodes[k])
    {
      ViewOfRest(nodes, k, i);
    }
  }

  lemma RestAndNodeCover(nodes: seq<Node>, k: nat)
    requires Separated(nodes) && k < |nodes| && Separated(Without(nodes, k))
    ensures forall i :: i in View(nodes) ==> i in View(Without(nodes, k)) || i in NodeMap(nodes[k])
    ensures forall i :: i in NodeMap(nodes[k]) ==> i in View(nodes) && View(nodes)[i] == NodeMap(nodes[k])[i]
  {
    forall i | i in View(nodes)
      ensures i in View(Without(nodes, k)) || i in NodeMap(nodes[k])
    {
      ViewOrNode(nodes, k, i);
    }
    forall i | i in NodeMap(nodes[k])
      ensures i in View(nodes) && View(nodes)[i] == NodeMap(nodes[k])[i]
    {
      ViewAt(nodes, k, i);
    }
  }

  /** Taking one node out of a separated list removes exactly its positions. */
  lemma ViewWithout(nodes: seq<Node>, k: nat)
    requires Separated(nodes) && k < |nodes|
    ensures Separated(Without(nodes, k))
    ensures View(nodes) == View(Without(nodes, k)) + NodeMap(nodes[k])
    ensures View(Without(nodes, k)).Keys !! NodeMap(nodes[k]).Keys
  {
    WithoutSeparated(nodes, k);
    RestIsDisjoint(nodes, k);
    RestAndNodeCover(nodes, k);
    MapSplits(View(nodes), View(Without(nodes, k)), NodeMap(nodes[k]));
  }

  lemma {:induction false} NodeMapSize(n: Node)
    ensures |NodeMap(n).Keys| == |n.data|
    decreases |n.data|
  {
    if n.data == [] {
      assert NodeMap(n).Keys == {};
    } else {
      var m := Node(n.idx + 1, n.data[1..]);
      NodeMapSize(m);
      assert forall i: nat :: i in NodeMap(n) <==> i == n.idx || i in NodeMap(m);
      assert NodeMap(n).Keys == {n.idx} + NodeMap(m).Keys;
    }
  }

  /** The byte counter counts each stored position once. */
  lemma {:induction false} ViewSize(nodes: seq<Node>)
    requires Separated(nodes)
    ensures |View(nodes).Keys| == Sum(nodes)
  {
    if nodes != [] {
      ViewWithout(nodes, 0);
      assert Without(nodes, 0) == nodes[1..];
      ViewSize(nodes[1..]);
      NodeMapSize(nodes[0]);
      assert View(nodes).Keys == View(nodes[1..]).Keys + NodeMap(nodes[0]).Keys;
    }
  }

  lemma WithoutMembers(nodes: seq<Node>, k: nat)
    requires k < |nodes|
    ensures forall n :: n in Without(nodes, k) ==> n in nodes
    ensures forall n :: n in nodes && n != nodes[k] ==> n in Without(nodes, k)
  {
  }

  // ---- The code ----

  /** An overlapping or adjacent pair joined: the bytes of the one that starts first come first. */
  lemma JoinedMap(d1: Node, d2: Node)
    requires d1.idx <= d2.idx <= d1.End() < d2.End()
    ensures NodeMap(Node(d1.idx, d1.data + d2.data[d1.End() - d2.idx..])) == NodeMap(d2) + NodeMap(d1)
  {
    var m := Node(d1.idx, d1.data + d2.data[d1.End() - d2.idx..]);
    var x, y := NodeMap(m), NodeMap(d2) + NodeMap(d1);
    forall i: nat
      ensures i in x <==> i in y
      ensures i in x ==> x[i] == y[i]
    {
      assert m.Has(i) <==> d1.Has(i) || d2.Has(i);
    }
  }

  lemma ContainedMap(d1: Node, d2: Node)
    requires d1.idx <= d2.idx && d2.End() <= d1.End()
    ensures NodeMap(d1) == NodeMap(d2) + NodeMap(d1)
  {
    assert forall i: nat :: d2.Has(i) ==> d1.Has(i);
  }

  /** merge_to: join b to a; overlap is the number of shared bytes, or -1 if there is a gap between them. */
  method MergeTo(a: Node, b: Node) returns (m: Node, overlap: int)
    ensures overlap == -1 <==> !Touch(a, b)
    ensures !Touch(a, b) ==> m == a
    ensures Touch(a, b) ==>
              && m.idx == Min(a.idx, b.idx) && m.End() == Max(a.End(), b.End())
              && overlap == |a.data| + |b.data| - |m.data| >= 0
              && NodeMap(m) == if a.idx <= b.idx then NodeMap(b) + NodeMap(a) else NodeMap(a) + NodeMap(b)
  {
    var dst1, dst2 := b, a;
    if a.idx <= b.idx {
      dst1, dst2 := a, b;
    }
    if dst1.End() >= dst2.End() {
      ContainedMap(dst1, dst2);
      m, overlap := dst1, |dst2.data|;
    } else if dst1.End() < dst2.idx {
      m, overlap := a, -1;
    } else {
      JoinedMap(dst1, dst2);
      m := Node(dst1.idx, dst1.data + dst2.data[dst1.End() - dst2.idx..]);
      overlap := dst1.End() - dst2.idx;
    }
  }

  /** std::set::lower_bound on nodes ordered by idx: the first node that does not start before idx. */
  method LowerBound(nodes: seq<Node>, idx: nat) returns (k: nat)
    requires Separated(nodes)
    ensures k <= |nodes|
    ensures forall i :: 0 <= i < k ==> nodes[i].idx < idx
    ensures forall i :: k <= i < |nodes| ==> idx <= nodes[i].idx
  {
    k := 0;
    while k < |nodes| && nodes[k].idx < idx
      invariant k <= |nodes|
      invariant forall i :: 0 <= i < k ==> nodes[i].idx < idx
    {
      k := k + 1;
    }
    forall i | k <= i < |nodes|
      ensures idx <= nodes[i].idx
    {
      assert k < i ==> nodes[k].End() < nodes[i].idx;
    }
  }

  lemma OverlayAssociative(a: map<nat, byte>, b: map<nat, byte>, c: map<nat, byte>)
    ensures (a + b) + c == a + (b + c)
  {
  }

  lemma OverlayDisjoint(a: map<nat, byte>, b: map<nat, byte>, c: map<nat, byte>)
    requires b.Keys !! c.Keys
    ensures a + (b + c) == (a + c) + b
  {
  }

  /** Absorbing a node that the block overrides leaves the overlaid map unchanged. */
  lemma AbsorbRight(nodes: seq<Node>, k: nat, block: Node, merged: Node)
    requires Separated(nodes) && k < |nodes|
    requires NodeMap(merged) == NodeMap(nodes[k]) + NodeMap(block)
    ensures Separated(Without(nodes, k))
    ensures View(nodes) + NodeMap(block) == View(Without(nodes, k)) + NodeMap(merged)
  {
    ViewWithout(nodes, k);
    OverlayAssociative(View(Without(nodes, k)), NodeMap(nodes[k]), NodeMap(block));
  }

  /** Absorbing a node that overrides the block leaves the underlaid map unchanged. */
  lemma AbsorbLeft(nodes: seq<Node>, k: nat, block: Node, merged: Node)
    requires Separated(nodes) && k < |nodes|
    requires NodeMap(merged) == NodeMap(block) + NodeMap(nodes[k])
    ensures Separated(Without(nodes, k))
    ensures NodeMap(block) + View(nodes) == NodeMap(merged) + View(Without(nodes, k))
  {
    ViewWithout(nodes, k);
    OverlayDisjoint(NodeMap(block), View(Without(nodes, k)), NodeMap(nodes[k]));
  }

  /** All blocks, the empty ones too, start at lo or later and end by hi. */
  ghost predicate InBounds(nodes: seq<Node>, lo: nat, hi: nat) {
    forall n :: n in nodes ==> lo <= n.idx && n.End() <= hi
  }

  /** Right neighbours: every node that starts at or after the block and touches it is absorbed. */
  method MergeRight(nodes0: seq<Node>, block0: Node, bytes0: int, ghost lo: nat, ghost hi: nat)
    returns (nodes: seq<Node>, block: Node, bytes: int, it: nat)
    requires Separated(nodes0) && bytes0 == Sum(nodes0) + |block0.data|
    requires InBounds(nodes0, lo, hi) && lo <= block0.idx && block0.End() <= hi
    ensures Separated(nodes) && bytes == Sum(nodes) + |block.data|
    ensures InBounds(nodes, lo, hi) && lo <= block.idx && block.End() <= hi
    ensures block.idx == block0.idx && block.End() >= block0.End() && it <= |nodes|
    ensures View(nodes) + NodeMap(block) == View(nodes0) + NodeMap(block0)
    ensures forall n :: n in nodes ==> n in nodes0
    ensures forall n :: n in nodes0 && n.idx < block0.idx ==> n in nodes
    ensures forall i :: 0 <= i < it ==> nodes[i].idx < block.idx
    ensures forall i :: it <= i < |nodes| ==> block.End() < nodes[i].idx
  {
    nodes, block, bytes := nodes0, block0, bytes0;
    it := LowerBound(nodes, block.idx);
    while it < |nodes|
      invariant Separated(nodes) && bytes == Sum(nodes) + |block.data|
      invariant InBounds(nodes, lo, hi) && lo <= block.idx && block.End() <= hi
      invariant block.idx == block0.idx && block.End() >= block0.End() && it <= |nodes|
      invariant View(nodes) + NodeMap(block) == View(nodes0) + NodeMap(block0)
      invariant forall n :: n in nodes ==> n in nodes0
      invariant forall n :: n in nodes0 && n.idx < block0.idx ==> n in nodes
      invariant forall i :: 0 <= i < it ==> nodes[i].idx < block.idx
      invariant forall i :: it <= i < |nodes| ==> block.idx <= nodes[i].idx
      decreases |nodes|
    {
      var merged, overlap := MergeTo(block, nodes[it]);
      if overlap < 0 {
        break;
      }
      AbsorbRight(nodes, it, block, merged);
      SumWithout(nodes, it);
      WithoutMembers(nodes, it);
      bytes := bytes - overlap;
      nodes, block := Without(nodes, it), merged;
      it := LowerBound(nodes, block.idx);
    }
    forall i | it <= i < |nodes|
      ensures block.End() < nodes[i].idx
    {
      assert it < i ==> nodes[it].End() < nodes[i].idx;
    }
  }

  /** What starts at or after a block grown to the left by node k lies beyond its end. */
  lemma RightOfMerged(nodes: seq<Node>, k: nat, block: Node, merged: Node, it: nat)
    requires Separated(nodes) && k < |nodes| && it < |nodes|
    requires merged.idx == nodes[k].idx && merged.End() == Max(block.End(), nodes[k].End())
    requires forall j :: k < j < |nodes| ==> block.End() < nodes[j].idx
    requires forall i :: it <= i < |nodes| - 1 ==> merged.idx <= Without(nodes, k)[i].idx
    ensures forall i :: it <= i < |nodes| - 1 ==> merged.End() < Without(nodes, k)[i].idx
  {
    forall i | it <= i < |nodes| - 1
      ensures merged.End() < Without(nodes, k)[i].idx
    {
      var j := if i < k then i else i + 1;
      assert Without(nodes, k)[i] == nodes[j];
      assert k < j ==> nodes[k].End() < nodes[j].idx;
    }
  }

  ghost predicate Apart(nodes: seq<Node>, block: Node) {
    forall i :: 0 <= i < |nodes| ==> nodes[i].End() < block.idx || block.End() < nodes[i].idx
  }

  lemma ApartFrom(nodes: seq<Node>, block: Node, it: nat)
    requires Separated(nodes) && it <= |nodes|
    requires it > 0 ==> nodes[it - 1].End() < block.idx
    requires forall i :: it <= i < |nodes| ==> block.End() < nodes[i].idx
    ensures Apart(nodes, block)
  {
    forall i | 0 <= i < it
      ensures nodes[i].End() < block.idx
    {
      assert i < it - 1 ==> nodes[i].End() < nodes[it - 1].idx;
    }
  }

  /** Left neighbours: as long as the node just before the block touches it, absorb it. */
  method MergeLeft(nodes0: seq<Node>, block0: Node, bytes0: int, it0: nat, ghost lo: nat, ghost hi: nat)
    returns (nodes: seq<Node>, block: Node, bytes: int)
    requires Separated(nodes0) && bytes0 == Sum(nodes0) + |block0.data|
    requires InBounds(nodes0, lo, hi) && lo <= block0.idx && block0.End() <= hi
    requires it0 <= |nodes0|
    requires forall i :: 0 <= i < it0 ==> nodes0[i].idx < block0.idx
    requires forall i :: it0 <= i < |nodes0| ==> block0.End() < nodes0[i].idx
    ensures Separated(nodes) && bytes == Sum(nodes) + |block.data|
    ensures InBounds(nodes, lo, hi) && lo <= block.idx && block.End() <= hi
    ensures NodeMap(block) + View(nodes) == NodeMap(block0) + View(nodes0)
    ensures Apart(nodes, block)
  {
    nodes, block, bytes := nodes0, block0, bytes0;
    var it: nat := it0;
    while it > 0
      invariant Separated(nodes) && bytes == Sum(nodes) + |block.data|
      invariant InBounds(nodes, lo, hi) && lo <= block.idx && block.End() <= hi
      invariant NodeMap(block) + View(nodes) == NodeMap(block0) + View(nodes0)
      invariant it <= |nodes|
      invariant forall i :: 0 <= i < it ==> nodes[i].idx < block.idx
      invariant forall i :: it <= i < |nodes| ==> block.End() < nodes[i].idx
      decreases |nodes|
    {
      var prev := it - 1;
      var merged, overlap := MergeTo(block, nodes[prev]);
      if overlap < 0 {
        break;
      }
      AbsorbLeft(nodes, prev, block, merged);
      WithoutMembers(nodes, prev);
      SumWithout(nodes, prev);
      bytes := bytes - overlap;
      it := LowerBound(Without(nodes, prev), merged.idx);
      RightOfMerged(nodes, prev, block, merged, it);
      nodes, block := Without(nodes, prev), merged;
    }
    ApartFrom(nodes, block, it);
  }

  /** Bytes of a stored block that starts before the new one stay; otherwise the new block's bytes win. */
  ghost predicate KeepsOld(nodes: seq<Node>, lo: nat, i: nat) {
    exists k :: 0 <= k < |nodes| && nodes[k].idx < lo && nodes[k].Has(i)
  }

  /** m is what must be stored once block has been merged into nodes. */
  ghost predicate IsMerge(nodes: seq<Node>, block: Node, m: map<nat, byte>) {
    && (forall i: nat :: i in m <==> i in View(nodes) || block.Has(i))
    && (forall i :: i in m && block.Has(i) && !KeepsOld(nodes, block.idx, i) ==> m[i] == NodeMap(block)[i])
    && (forall i :: i in m && !(block.Has(i) && !KeepsOld(nodes, block.idx, i))
                    ==> i in View(nodes) && m[i] == View(nodes)[i])
  }

  lemma SameNodeSameByte(nodes0: seq<Node>, nodes: seq<Node>, j: nat, i: nat) returns (k: nat)
    requires Separated(nodes0) && Separated(nodes)
    requires j < |nodes| && nodes[j].Has(i) && nodes[j] in nodes0
    ensures k < |nodes0| && nodes0[k] == nodes[j]
    ensures i in View(nodes) && i in View(nodes0) && View(nodes)[i] == View(nodes0)[i]
  {
    k :| 0 <= k < |nodes0| && nodes0[k] == nodes[j];
    ViewAt(nodes, j, i);
    ViewAt(nodes0, k, i);
  }

  /** Once the right side is done, the nodes left hold inside the block just what stays from before. */
  lemma LeftoverInBlock(nodes0: seq<Node>, block0: Node, nodes: seq<Node>, it: nat, i: nat)
    requires Separated(nodes0) && Separated(nodes) && it <= |nodes|
    requires forall n :: n in nodes ==> n in nodes0
    requires forall n :: n in nodes0 && n.idx < block0.idx ==> n in nodes
    requires forall j :: 0 <= j < it ==> nodes[j].idx < block0.idx
    requires forall j :: it <= j < |nodes| ==> block0.End() < nodes[j].idx
    requires block0.Has(i)
    ensures i in View(nodes) <==> KeepsOld(nodes0, block0.idx, i)
    ensures i in View(nodes) ==> i in View(nodes0) && View(nodes)[i] == View(nodes0)[i]
  {
    if i in View(nodes) {
      var j := OwnerOf(nodes, i);
      var k := SameNodeSameByte(nodes0, nodes, j, i);
    } else if KeepsOld(nodes0, block0.idx, i) {
      var k :| 0 <= k < |nodes0| && nodes0[k].idx < block0.idx && nodes0[k].Has(i);
      var j := SameNodeSameByte(nodes, nodes0, k, i);
    }
  }

  lemma LeftoverOutside(nodes0: seq<Node>, nodes: seq<Node>, i: nat)
    requires Separated(nodes0) && Separated(nodes)
    requires forall n :: n in nodes ==> n in nodes0
    requires i in View(nodes)
    ensures i in View(nodes0) && View(nodes)[i] == View(nodes0)[i]
  {
    var j := OwnerOf(nodes, i);
    var k := SameNodeSameByte(nodes0, nodes, j, i);
  }

  /** The overlay left by the right side, put under the remaining nodes, is the wanted map. */
  lemma MergedMap(nodes0: seq<Node>, block0: Node, nodes: seq<Node>, block: Node, it: nat)
    requires Separated(nodes0) && Separated(nodes) && it <= |nodes|
    requires block0.End() <= block.End()
    requires View(nodes) + NodeMap(block) == View(nodes0) + NodeMap(block0)
    requires forall n :: n in nodes ==> n in nodes0
    requires forall n :: n in nodes0 && n.idx < block0.idx ==> n in nodes
    requires forall j :: 0 <= j < it ==> nodes[j].idx < block0.idx
    requires forall j :: it <= j < |nodes| ==> block.End() < nodes[j].idx
    ensures IsMerge(nodes0, block0, NodeMap(block) + View(nodes))
  {
    var m, total := NodeMap(block) + View(nodes), View(nodes) + NodeMap(block);
    forall i: nat
      ensures i in m <==> i in View(nodes0) || block0.Has(i)
      ensures i in m && block0.Has(i) && !KeepsOld(nodes0, block0.idx, i) ==> m[i] == NodeMap(block0)[i]
      ensures i in m && !(block0.Has(i) && !KeepsOld(nodes0, block0.idx, i))
              ==> i in View(nodes0) && m[i] == View(nodes0)[i]
    {
      assert i in m <==> i in total;
      if block0.Has(i) {
        LeftoverInBlock(nodes0, block0, nodes, it, i);
        assert total[i] == NodeMap(block0)[i];
      } else if i in View(nodes) {
        LeftoverOutside(nodes0, nodes, i);
      } else if i in m {
        assert m[i] == NodeMap(block)[i] == total[i] == View(nodes0)[i];
      }
    }
  }

  lemma OverlayCommutes(a: map<nat, byte>, b: map<nat, byte>)
    requires a.Keys !! b.Keys
    ensures a + b == b + a
  {
  }

  lemma InsertedSeparated(nodes: seq<Node>, k: nat, block: Node)
    requires Separated(nodes) && Apart(nodes, block) && k <= |nodes|
    requires forall i :: 0 <= i < k ==> nodes[i].idx < block.idx
    requires forall i :: k <= i < |nodes| ==> block.idx <= nodes[i].idx
    ensures Separated(Inserted(nodes, k, block))
    ensures Without(Inserted(nodes, k, block), k) == nodes
    ensures forall n :: n in Inserted(nodes, k, block) ==> n == block || n in nodes
  {
    var all := Inserted(nodes, k, block);
    assert forall i :: 0 <= i < |all| ==> all[i] == if i < k then nodes[i] else if i == k then block else nodes[i - 1];
  }

  lemma InsertedView(nodes: seq<Node>, k: nat, block: Node)
    requires Separated(nodes) && Apart(nodes, block) && k <= |nodes|
    requires forall i :: 0 <= i < k ==> nodes[i].idx < block.idx
    requires forall i :: k <= i < |nodes| ==> block.idx <= nodes[i].idx
    ensures Separated(Inserted(nodes, k, block))
    ensures View(Inserted(nodes, k, block)) == NodeMap(block) + View(nodes)
    ensures Sum(Inserted(nodes, k, block)) == Sum(nodes) + |block.data|
    ensures forall n :: n in Inserted(nodes, k, block) ==> n == block || n in nodes
  {
    var all := Inserted(nodes, k, block);
    InsertedSeparated(nodes, k, block);
    ViewWithout(all, k);
    SumWithout(all, k);
    OverlayCommutes(View(nodes), NodeMap(block));
  }

  /** Merge a block into the stored set (lines 72-96): both neighbours, then insert. */
  method Insert(nodes0: seq<Node>, block0: Node, bytes0: int, ghost lo: nat, ghost hi: nat)
    returns (nodes: seq<Node>, bytes: int)
    requires Separated(nodes0) && bytes0 == Sum(nodes0) + |block0.data|
    requires InBounds(nodes0, lo, hi) && lo <= block0.idx && block0.End() <= hi
    ensures Separated(nodes) && bytes == Sum(nodes) && InBounds(nodes, lo, hi)
    ensures IsMerge(nodes0, block0, View(nodes))
  {
    var rest, block, count, it := MergeRight(nodes0, block0, bytes0, lo, hi);
    MergedMap(nodes0, block0, rest, block, it);
    rest, block, count := MergeLeft(rest, block, count, it, lo, hi);
    var k := LowerBound(rest, block.idx);
    InsertedView(rest, k, block);
    nodes, bytes := Inserted(rest, k, block), count;
  }
}
