/** The bounded in-memory pipe between a writer and a reader (byte_stream.cc). */
module ByteStream {
  import opened Numbers
  import Buffers

  /** A stream as a value: everything ever written, and how much of it has been taken out. */
  datatype Stream = Stream(written: seq<byte>, read: nat, capacity: nat, ended: bool, error: bool) {
    ghost predicate Valid() { read <= |written| <= read + capacity }

    function BufferSize(): int { |written| - read }

    function Buffered(): seq<byte>
      requires read <= |written|
    {
      written[read..]
    }

    function Eof(): bool { BufferSize() == 0 && ended }

    function Room(): int { capacity - BufferSize() }

    /** The part of data that still fits. */
    function Accepted(data: seq<byte>): seq<byte>
      requires Valid()
    {
      data[..Min(|data|, Room())]
    }

    function Write(data: seq<byte>): Stream
      requires Valid()
    {
      this.(written := written + Accepted(data))
    }

    function Pop(len: nat): Stream
      requires Valid()
    {
      this.(read := read + Min(len, BufferSize()))
    }

    function Peek(len: nat): seq<byte>
      requires Valid()
    {
      Buffered()[..Min(len, BufferSize())]
    }

    function EndInput(): Stream { this.(ended := true) }

    function SetError(): Stream { this.(error := true) }
  }

  function Empty(capacity: nat): Stream { Stream([], 0, capacity, false, false) }

  /** A stream is a FIFO: what has been read followed by what is buffered is what was written. */
  lemma FifoOrder(s: Stream, data: seq<byte>, len: nat)
    requires s.Valid()
    ensures s.Write(data).Valid() && s.Pop(len).Valid()
    ensures s.Write(data).Buffered() == s.Buffered() + s.Accepted(data)
    ensures s.Peek(len) + s.Pop(len).Buffered() == s.Buffered()
    ensures s.Accepted(data) <= data && |s.Accepted(data)| == Min(|data|, s.capacity - |s.Buffered()|)
    ensures |s.Peek(len)| == Min(len, |s.Buffered()|)
  {
  }

  class ByteStream {
    const capacity: nat
    var error: bool
    var inputEnd: bool
    var writeBytes: nat
    var readBytes: nat
    var buffer: seq<seq<byte>>
    ghost var history: seq<byte>

    ghost function Model(): Stream
      reads this
    {
      Stream(history, readBytes, capacity, inputEnd, error)
    }

    ghost predicate Valid()
      reads this
    {
      && Model().Valid()
      && |history| == writeBytes
      && Buffers.Flat(buffer) == Model().Buffered()
    }

    constructor (capacity: nat)
      ensures Valid() && Model() == Empty(capacity)
    {
      this.capacity := capacity;
      error, inputEnd, writeBytes, readBytes, buffer, history := false, false, 0, 0, [], [];
    }

    method Write(data: seq<byte>) returns (n: nat)
      requires Valid()
      modifies this
      ensures Valid() && Model() == old(Model()).Write(data)
      ensures n == |old(Model()).Accepted(data)|
    {
      var size := Buffers.Size(buffer);
      n := |data|;
      if n > capacity - size {
        n := capacity - size;
      }
      Buffers.FlatAppend(buffer, [data[..n]]);
      buffer := Buffers.Append(buffer, [data[..n]]);
      writeBytes := writeBytes + n;
      history := history + data[..n];
    }

    method PeekOutput(len: nat) returns (s: seq<byte>)
      requires Valid()
      ensures s == Model().Peek(len)
    {
      var size := Buffers.Size(buffer);
      var n := len;
      if n > size {
        n := size;
      }
      var all := Buffers.Concatenate(buffer);
      s := all[..n];
    }

    method PopOutput(len: nat)
      requires Valid()
      modifies this
      ensures Valid() && Model() == old(Model()).Pop(len)
    {
      var size := Buffers.Size(buffer);
      var n := len;
      if n > size {
        n := size;
      }
      readBytes := readBytes + n;
      var rest := Buffers.RemovePrefix(buffer, n);
      buffer := rest.value;
    }

    method Read(len: nat) returns (s: seq<byte>)
      requires Valid()
      modifies this
      ensures Valid() && Model() == old(Model()).Pop(len) && s == old(Model()).Peek(len)
    {
      var size := Buffers.Size(buffer);
      var n := if len > size then size else len;
      s := PeekOutput(n);
      PopOutput(n);
    }

    method EndInput()
      requires Valid()
      modifies this
      ensures Valid() && Model() == old(Model()).EndInput()
    {
      inputEnd := true;
    }

    method SetError()
      requires Valid()
      modifies this
      ensures Valid() && Model() == old(Model()).SetError()
    {
      error := true;
    }

    method BufferSize() returns (n: nat)
      requires Valid()
      ensures n == Model().BufferSize()
    {
      n := Buffers.Size(buffer);
    }

    method Eof() returns (b: bool)
      requires Valid()
      ensures b == Model().Eof()
    {
      var n := BufferSize();
      b := n == 0 && inputEnd;
    }
  }
}
