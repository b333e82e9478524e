/** The bounded in-order byte stream with a writing and a reading side. */
module ByteStreams {
  import opened Machine
  import opened Buffers

  /** What a stream means: everything ever written, and how much of it has been read. */
  datatype Stream = Stream(capacity: nat, history: seq<byte>, read: nat, ended: bool, error: bool)
  {
    ghost predicate Valid()
    {
      read <= |history| <= read + capacity
    }

    function Written(): nat { |history| }

    function Size(): nat
      requires Valid()
    {
      |history| - read
    }

    function Room(): nat
      requires Valid()
    {
      capacity - Size()
    }

    predicate Eof()
      requires Valid()
    {
      ended && Size() == 0
    }

    /** Accepts as much of `data` as there is room for; a write after the input ended is not refused. */
    function Write(data: seq<byte>): (s: Stream)
      requires Valid()
      ensures s.Valid()
    {
      this.(history := history + data[..Min(|data|, Room())])
    }

    function Peek(n: nat): seq<byte>
      requires Valid()
    {
      Cut(history, read, read + Min(n, Size()))
    }

    function Pop(n: nat): (s: Stream)
      requires Valid()
      ensures s.Valid()
    {
      this.(read := read + Min(n, Size()))
    }
  }

  function NewStream(capacity: nat): (s: Stream)
    ensures s.Valid()
  {
    Stream(capacity, [], 0, false, false)
  }

  class ByteStream {
    const buf: BufferList
    const cap: nat
    var totalWritten: nat
    var totalRead: nat
    var inputEnded: bool
    var error: bool
    ghost var history: seq<byte>

    ghost predicate Valid()
      reads this, buf
    {
      && buf.Valid()
      && totalWritten == |history|
      && totalRead <= totalWritten <= totalRead + cap
      && buf.Contents() == history[totalRead..]
    }

    ghost function View(): (s: Stream)
      reads this, buf
      requires Valid()
      ensures s.Valid()
    {
      Stream(cap, history, totalRead, inputEnded, error)
    }

    constructor (capacity: nat)
      ensures Valid() && View() == NewStream(capacity)
      ensures fresh({this, buf})
    {
      buf := new BufferList();
      cap := capacity;
      totalWritten, totalRead := 0, 0;
      inputEnded, error := false, false;
      history := [];
    }

    method BufferSize() returns (n: nat)
      requires Valid()
      ensures n == View().Size()
    {
      n := buf.Size();
    }

    method RemainingCapacity() returns (n: nat)
      requires Valid()
      ensures n == View().Room()
    {
      var size := buf.Size();
      if cap < size {
        n := 0;
      } else {
        n := cap - size;
      }
    }

    method Eof() returns (r: bool)
      requires Valid()
      ensures r == View().Eof()
    {
      var size := buf.Size();
      r := inputEnded && size == 0;
    }

    method Write(data: seq<byte>) returns (n: nat)
      requires Valid()
      modifies this, buf
      ensures Valid() && View() == old(View()).Write(data)
      ensures n == Min(|data|, old(View()).Room())
    {
      n := 0;
      var room := RemainingCapacity();
      if room > 0 {
        n := if room < |data| then room else |data|;
        totalWritten := totalWritten + n;
        var chunk := FromString(data[..n]);
        ConcatOne(chunk);
        buf.Append([chunk]);
        history := history + data[..n];
      }
    }

    method PeekOutput(len: nat) returns (s: seq<byte>)
      requires Valid()
      ensures s == View().Peek(len)
    {
      var all := buf.Concatenate();
      var n := BufferSize();
      if n > len {
        n := len;
      }
      s := all[..n];
    }

    /** `BufferList.RemovePrefix` is never asked for more than is queued. */
    method PopOutput(len: nat)
      requires Valid()
      modifies this, buf
      ensures Valid() && View() == old(View()).Pop(len)
    {
      var size := BufferSize();
      var n := if size > len then len else size;
      var ok := buf.RemovePrefix(n);
      assert ok;
      totalRead := totalRead + n;
    }

    method Read(len: nat) returns (s: seq<byte>)
      requires Valid()
      modifies this, buf
      ensures Valid() && View() == old(View()).Pop(len)
      ensures s == old(View()).Peek(len)
    {
      s := PeekOutput(len);
      PopOutput(len);
    }

    method EndInput()
      requires Valid()
      modifies this
      ensures Valid() && View() == old(View()).(ended := true)
    {
      inputEnded := true;
    }

    method SetError()
      requires Valid()
      modifies this
      ensures Valid() && View() == old(View()).(error := true)
    {
      error := true;
    }
  }
}
