/** The receiving half of a connection: unwraps sequence numbers, feeds the reassembler and computes the
    acknowledgment number and the window. */
module TcpReceiver {
  import opened Machine
  import opened WrappingIntegers
  import opened Segments
  import opened Assembly
  import StreamReassembler

  datatype Receiver = Receiver(asm: Assembly, ack: u32, isn: u32, expAck: nat, checkpoint: u64, syn: bool, end: bool)
  {
    ghost predicate Valid() { asm.Valid() }

    function Ackno(): Option<u32> { if syn then Some(ack) else None }

    function WindowSize(): nat
      requires Valid()
    {
      asm.out.Room()
    }

    function SegmentReceived(seg: TcpSegment): (r: Receiver)
      requires Valid()
      ensures r.Valid()
    {
      var h := seg.header;
      if (h.syn && syn) || (!h.syn && !syn) then this else
      var isn' := if h.syn then h.seqno else isn;
      Accept(seg, isn', Unwrap(h.seqno, isn', checkpoint))
    }

    /** Takes in a segment whose absolute sequence number is `seqno`. */
    function Accept(seg: TcpSegment, isn': u32, seqno: u64): (r: Receiver)
      requires Valid()
      ensures r.Valid()
    {
      var end' := end || seg.header.fin;
      var asm' := asm.Push(seg.payload, StreamIndex(seg, seqno), end');
      var expAck' := asm'.Written() + 1 + (if end' && |asm'.held| == 0 then 1 else 0);
      this.(asm := asm').Record(isn', seqno, end', expAck')
    }

    function Record(isn': u32, seqno: u64, end': bool, expAck': nat): Receiver
    {
      Receiver(asm, Wrap(expAck', isn'), isn', expAck', seqno, true, end')
    }

    function Pop(n: nat): (r: Receiver)
      requires Valid()
      ensures r.Valid()
    {
      this.(asm := asm.Pop(n))
    }
  }

  /** The window as the 16-bit field of a header carries it. */
  function ClippedWindow(r: Receiver): u16
    requires r.Valid()
  {
    if r.WindowSize() > 0xffff then 0xffff else r.WindowSize()
  }

  /** The stream position of the first payload byte: the SYN takes sequence number zero. */
  function StreamIndex(seg: TcpSegment, seqno: u64): u64
  {
    if seg.header.syn then 0 else Trunc64(seqno - 1)
  }

  function NewReceiver(capacity: nat): (r: Receiver)
    ensures r.Valid()
  {
    Receiver(NewAssembly(capacity), 0, 0, 0, 0, false, false)
  }

  class TcpReceiver {
    const reassembler: StreamReassembler.StreamReassembler
    const capacity: u64
    var ack: u32
    var isn: u32
    var expAck: nat
    var checkpoint: u64
    var syn: bool
    var end: bool

    ghost predicate Valid()
      reads this, reassembler, reassembler.output, reassembler.output.buf
    {
      reassembler.Valid() && capacity == reassembler.output.cap
    }

    ghost function View(): (r: Receiver)
      reads this, reassembler, reassembler.output, reassembler.output.buf
      requires Valid()
      ensures r.Valid()
    {
      Receiver(reassembler.View(), ack, isn, expAck, checkpoint, syn, end)
    }

    constructor (capacity: u64)
      ensures Valid() && View() == NewReceiver(capacity)
      ensures fresh({this, reassembler, reassembler.output, reassembler.output.buf})
    {
      reassembler := new StreamReassembler.StreamReassembler(capacity);
      this.capacity := capacity;
      ack, isn, expAck, checkpoint := 0, 0, 0, 0;
      syn, end := false, false;
    }

    method SegmentReceived(seg: TcpSegment)
      requires Valid()
      modifies this, reassembler, reassembler.output, reassembler.output.buf
      ensures Valid()
      ensures View() == old(View()).SegmentReceived(seg)
    {
      if seg.header.syn && syn {
        return;
      }
      var isn' := if seg.header.syn then seg.header.seqno else isn;
      if seg.header.syn || syn {
        Accept(seg, isn', Unwrap(seg.header.seqno, isn', checkpoint));
      }
    }

    method Accept(seg: TcpSegment, isn': u32, seqno: u64)
      requires Valid()
      modifies this, reassembler, reassembler.output, reassembler.output.buf
      ensures Valid()
      ensures View() == old(View()).Accept(seg, isn', seqno)
    {
      var end' := end || seg.header.fin;
      var exp := PushAndCount(seg.payload, StreamIndex(seg, seqno), end');
      Record(isn', seqno, end', exp);
    }

    method Record(isn': u32, seqno: u64, end': bool, expAck': nat)
      requires Valid()
      modifies this
      ensures Valid()
      ensures View() == old(View()).Record(isn', seqno, end', expAck')
    {
      syn, isn, checkpoint, end := true, isn', seqno, end';
      expAck := expAck';
      ack := Wrap(expAck, isn);
    }

    /** Pushes a payload; returns the sequence number of the first byte or FIN still missing. */
    method PushAndCount(payload: seq<byte>, index: u64, end': bool) returns (exp: nat)
      requires Valid()
      modifies reassembler, reassembler.output, reassembler.output.buf
      ensures Valid()
      ensures reassembler.View() == old(reassembler.View()).Push(payload, index, end')
      ensures var a := reassembler.View(); exp == a.Written() + 1 + (if end' && |a.held| == 0 then 1 else 0)
    {
      reassembler.PushSubstring(payload, index, end');
      exp := reassembler.BytesWritten();
      exp := exp + 1;
      var empty := reassembler.Empty();
      if end' && empty {
        exp := exp + 1;
      }
    }

    function Ackno(): (a: Option<u32>)
      reads this, reassembler, reassembler.output, reassembler.output.buf
      requires Valid()
      ensures a == View().Ackno()
    {
      if syn then Some(ack) else None
    }

    method WindowSize() returns (n: nat)
      requires Valid()
      ensures n == View().WindowSize()
    {
      var size := reassembler.output.BufferSize();
      n := capacity - size;
    }
  }
}
