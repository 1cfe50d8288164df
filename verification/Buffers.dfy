/** Chunked strings (util/buffer.cc): a list of chunks must behave as the one flat string it stands for. */
module Buffers {
  import opened Numbers

  datatype Result<T> = Ok(value: T) | OutOfRange

  /** The flat string that a list of chunks stands for. */
  function Flat(chunks: seq<seq<byte>>): seq<byte> {
    if chunks == [] then [] else chunks[0] + Flat(chunks[1..])
  }

  lemma {:induction false} FlatAppend(a: seq<seq<byte>>, b: seq<seq<byte>>)
    ensures Flat(a + b) == Flat(a) + Flat(b)
  {
    if a == [] {
      assert a + b == b;
    } else {
      assert (a + b)[1..] == a[1..] + b;
      FlatAppend(a[1..], b);
    }
  }

  /** BufferList::append */
  method Append(chunks: seq<seq<byte>>, other: seq<seq<byte>>) returns (r: seq<seq<byte>>)
    ensures Flat(r) == Flat(chunks) + Flat(other)
  {
    r := chunks;
    for i := 0 to |other|
      invariant Flat(r) == Flat(chunks) + Flat(other[..i])
    {
      FlatAppend(r, [other[i]]);
      FlatAppend(other[..i], [other[i]]);
      assert other[..i + 1] == other[..i] + [other[i]];
      r := r + [other[i]];
    }
    assert other[..|other|] == other;
  }

  /** BufferList::size */
  method Size(chunks: seq<seq<byte>>) returns (n: nat)
    ensures n == |Flat(chunks)|
  {
    n := 0;
    for i := 0 to |chunks|
      invariant n == |Flat(chunks[..i])|
    {
      FlatAppend(chunks[..i], [chunks[i]]);
      assert chunks[..i + 1] == chunks[..i] + [chunks[i]];
      n := n + |chunks[i]|;
    }
    assert chunks[..|chunks|] == chunks;
  }

  /** BufferList::concatenate */
  method Concatenate(chunks: seq<seq<byte>>) returns (s: seq<byte>)
    ensures s == Flat(chunks)
  {
    s := [];
    for i := 0 to |chunks|
      invariant s == Flat(chunks[..i])
    {
      FlatAppend(chunks[..i], [chunks[i]]);
      assert chunks[..i + 1] == chunks[..i] + [chunks[i]];
      s := s + chunks[i];
    }
    assert chunks[..|chunks|] == chunks;
  }

  /** BufferList::remove_prefix: whole chunks leave the list, a partial one is trimmed. */
  method RemovePrefix(chunks: seq<seq<byte>>, n: nat) returns (r: Result<seq<seq<byte>>>)
    ensures r.Ok? <==> n <= |Flat(chunks)|
    ensures r.Ok? ==> Flat(r.value) == Flat(chunks)[n..]
  {
    var left, todo := chunks, n;
    while todo > 0
      invariant 0 <= todo <= n
      invariant n - todo <= |Flat(chunks)| && Flat(left) == Flat(chunks)[n - todo..]
      decreases |left|, todo
    {
      if left == [] {
        return OutOfRange;
      }
      if todo < |left[0]| {
        left, todo := [left[0][todo..]] + left[1..], 0;
      } else {
        todo := todo - |left[0]|;
        left := left[1..];
      }
    }
    return Ok(left);
  }
}
