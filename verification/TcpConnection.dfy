/** One endpoint of a connection: a sender and a receiver, the queue of outgoing segments, and the rules for
    replying, giving up and lingering. */
module TcpConnection {
  import opened Machine
  import opened Segments
  import TcpSender
  import TcpReceiver

  const MAX_RETX_ATTEMPTS: nat := 8

  type Sender = TcpSender.Sender
  type Receiver = TcpReceiver.Receiver

  /** An outgoing segment with the receiver's acknowledgment, once there is one. */
  function Stamp(seg: TcpSegment, r: Receiver): TcpSegment
    requires r.Valid()
  {
    if r.Ackno().None? then seg
    else seg.(header := seg.header.(ackno := r.Ackno().value, win := TcpReceiver.ClippedWindow(r), ack := true))
  }

  function StampAll(segs: seq<TcpSegment>, r: Receiver): (t: seq<TcpSegment>)
    requires r.Valid()
    ensures |t| == |segs|
    ensures forall i :: 0 <= i < |segs| ==> t[i] == Stamp(segs[i], r)
  {
    if segs == [] then [] else [Stamp(segs[0], r)] + StampAll(segs[1..], r)
  }

  datatype Connection = Connection(
    rtTimeout: u16, sender: Sender, receiver: Receiver, segmentsOut: seq<TcpSegment>,
    linger: bool, sinceLast: nat, initiator: bool)
  {
    ghost predicate Valid() { sender.stream.Valid() && receiver.Valid() }

    predicate Active()
      requires Valid()
    {
      var done := receiver.asm.out.Eof() && sender.stream.Eof() && sender.bytesInFlight == 0;
      && !(sender.stream.error && receiver.asm.out.error)
      && !(done && (!linger || sinceLast >= 10 * rtTimeout))
    }

    function SetErrors(): Connection
    {
      this.(sender := sender.(stream := sender.stream.(error := true)),
            receiver := receiver.(asm := receiver.asm.(out := receiver.asm.out.(error := true))),
            linger := false)
    }

    function FlushBuffer(): Connection
      requires Valid()
    {
      this.(segmentsOut := segmentsOut + StampAll(sender.segmentsOut, receiver),
            sender := sender.(segmentsOut := []))
    }

    /** Takes the segment off the front of the sender's queue; it goes out as `seg`. */
    function TakeFront(seg: TcpSegment): Connection
      requires sender.segmentsOut != []
    {
      this.(segmentsOut := segmentsOut + [seg], sender := sender.(segmentsOut := sender.segmentsOut[1..]))
    }

    /** The answer to a segment that occupies sequence space. */
    function ReplyHeader(h: TcpHeader): TcpHeader
      requires Valid()
    {
      h.(ackno := if receiver.Ackno().Some? then receiver.Ackno().value else h.ackno,
         ack := true, win := TcpReceiver.ClippedWindow(receiver))
    }

    function Reply(seg: TcpSegment): Connection
      requires Valid()
    {
      var s := if seg.header.syn && !seg.header.ack && !initiator
               then sender.FillWindow() else sender.SendEmptySegment();
      this.(sender := s).SendReply()
    }

    /** The first segment in the sender's queue carries the acknowledgment. */
    function SendReply(): Connection
      requires Valid()
    {
      if sender.segmentsOut == [] then this else
      var front := sender.segmentsOut[0];
      TakeFront(front.(header := ReplyHeader(front.header)))
    }

    /** What goes out in answer to a segment that has been taken in. */
    function Answer(seg: TcpSegment): Connection
      requires Valid()
    {
      if seg.Length() > 0 then Reply(seg) else FlushBuffer()
    }

    /** Feeds the segment to the receiver and its acknowledgment to the sender. */
    function Absorb(seg: TcpSegment): (c: Connection)
      requires Valid()
      ensures c.Valid()
    {
      var r := receiver.SegmentReceived(seg);
      this.(receiver := r,
            sender := if seg.header.ack then sender.AckReceived(seg.header.ackno, seg.header.win) else sender)
    }

    /** The remote stream ended first: no need to linger. */
    function PassiveClose(): Connection
      requires Valid()
    {
      if receiver.asm.out.ended && !sender.stream.Eof() then this.(linger := false) else this
    }

    function SegmentReceived(seg: TcpSegment): (c: Connection)
      requires Valid()
      ensures c.Valid()
    {
      if !Active() then this
      else if seg.header.rst then this.(sinceLast := 0).SetErrors()
      else
        var c := this.(sinceLast := 0).Absorb(seg);
        c.Answer(seg).PassiveClose()
    }

    function Write(data: seq<byte>): (c: Connection)
      requires Valid()
      ensures c.Valid()
    {
      if !Active() then this else
      this.(sender := sender.(stream := sender.stream.Write(data)).FillWindow()).FlushBuffer()
    }

    function EndInputStream(): (c: Connection)
      requires Valid()
      ensures c.Valid()
    {
      if !Active() then this else
      this.(sender := sender.(stream := sender.stream.(ended := true)).FillWindow()).FlushBuffer()
    }

    function Connect(): (c: Connection)
      requires Valid()
      ensures c.Valid()
    {
      var c := this.(sender := sender.FillWindow());
      if c.sender.segmentsOut == [] then c
      else c.TakeFront(c.sender.segmentsOut[0]).(initiator := true)
    }

    function UncleanShutdown(): (c: Connection)
      requires Valid()
      ensures c.Valid()
    {
      var c := SetErrors();
      var d := if c.sender.segmentsOut == [] then c.(sender := c.sender.SendEmptySegment()) else c;
      var front := d.sender.segmentsOut[0];
      var h := if receiver.Ackno().Some? then front.header.(ackno := receiver.Ackno().value) else front.header;
      d.TakeFront(front.(header := h.(rst := true)))
    }

    function Elapse(ms: nat): (c: Connection)
      requires Valid()
      ensures c.Valid()
    {
      this.(sinceLast := sinceLast + ms, sender := sender.Tick(ms))
    }

    /** Too many retransmissions in a row are an unclean shutdown. */
    function CheckRetransmissions(): (c: Connection)
      requires Valid()
      ensures c.Valid()
    {
      if sender.timer.retransmissions > MAX_RETX_ATTEMPTS then UncleanShutdown() else this
    }

    function Tick(ms: nat): (c: Connection)
      requires Valid()
      ensures c.Valid()
    {
      if !Active() then this else Elapse(ms).CheckRetransmissions().FlushBuffer()
    }

    function Read(n: nat): (c: Connection)
      requires Valid()
      ensures c.Valid()
    {
      this.(receiver := receiver.Pop(n))
    }
  }

  lemma FlushStep(c: Connection)
    requires c.Valid() && c.sender.segmentsOut != []
    ensures c.TakeFront(Stamp(c.sender.segmentsOut[0], c.receiver)).FlushBuffer() == c.FlushBuffer()
  {
    var segs := c.sender.segmentsOut;
    assert c.segmentsOut + StampAll(segs, c.receiver) ==
           c.segmentsOut + [Stamp(segs[0], c.receiver)] + StampAll(segs[1..], c.receiver);
  }

  lemma FlushNone(c: Connection)
    requires c.Valid() && c.sender.segmentsOut == []
    ensures c.FlushBuffer() == c
  {
    assert c.segmentsOut + [] == c.segmentsOut;
  }

  function NewConnection(rtTimeout: u16, recvCapacity: nat, sendCapacity: nat, isn: u32): (c: Connection)
    ensures c.Valid()
  {
    Connection(rtTimeout, TcpSender.NewSender(sendCapacity, rtTimeout, isn), TcpReceiver.NewReceiver(recvCapacity),
               [], true, 0, false)
  }

  class TcpConnection {
    const rtTimeout: u16
    const sender: TcpSender.TcpSender
    const receiver: TcpReceiver.TcpReceiver
    var segmentsOut: seq<TcpSegment>
    var linger: bool
    var sinceLast: nat
    var initiator: bool

    ghost predicate Valid()
      reads this, sender, sender.stream, sender.stream.buf, receiver, receiver.reassembler,
            receiver.reassembler.output, receiver.reassembler.output.buf
    {
      && sender.stream != receiver.reassembler.output && sender.stream.buf != receiver.reassembler.output.buf
      && sender.Valid() && receiver.Valid()
    }

    ghost function View(): (c: Connection)
      reads this, sender, sender.stream, sender.stream.buf, receiver, receiver.reassembler,
            receiver.reassembler.output, receiver.reassembler.output.buf
      requires Valid()
      ensures c.Valid()
    {
      Connection(rtTimeout, sender.View(), receiver.View(), segmentsOut, linger, sinceLast, initiator)
    }

    constructor (rtTimeout: u16, recvCapacity: u64, sendCapacity: nat, isn: u32)
      ensures Valid() && View() == NewConnection(rtTimeout, recvCapacity, sendCapacity, isn)
    {
      this.rtTimeout := rtTimeout;
      sender := new TcpSender.TcpSender(sendCapacity, rtTimeout, isn);
      receiver := new TcpReceiver.TcpReceiver(recvCapacity);
      segmentsOut, linger, sinceLast, initiator := [], true, 0, false;
    }

    method Active() returns (r: bool)
      requires Valid()
      ensures r == View().Active()
    {
      if sender.stream.error && receiver.reassembler.output.error {
        return false;
      }
      var inEof := receiver.reassembler.output.Eof();
      var outEof := sender.stream.Eof();
      if !linger {
        if inEof && outEof && sender.bytesInFlight == 0 {
          return false;
        }
      } else {
        if inEof && outEof && sender.bytesInFlight == 0 && sinceLast >= 10 * rtTimeout {
          return false;
        }
      }
      return true;
    }

    method Stamped(seg: TcpSegment) returns (t: TcpSegment)
      requires Valid()
      ensures t == Stamp(seg, View().receiver)
    {
      var ackno := receiver.Ackno();
      t := seg;
      if ackno.Some? {
        var win := WindowField();
        t := t.(header := t.header.(ackno := ackno.value, win := win, ack := true));
      }
    }

    method TakeFront(seg: TcpSegment)
      requires Valid() && sender.segmentsOut != []
      modifies this`segmentsOut, sender`segmentsOut
      ensures Valid()
      ensures View() == old(View()).TakeFront(seg)
    {
      sender.segmentsOut := sender.segmentsOut[1..];
      segmentsOut := segmentsOut + [seg];
    }

    method FlushBuffer()
      requires Valid()
      modifies this`segmentsOut, sender`segmentsOut
      ensures Valid()
      ensures View() == old(View()).FlushBuffer()
    {
      ghost var c := View();
      while sender.segmentsOut != []
        invariant Valid() && View().FlushBuffer() == c.FlushBuffer()
        decreases |sender.segmentsOut|
      {
        FlushStep(View());
        var seg := Stamped(sender.segmentsOut[0]);
        TakeFront(seg);
      }
      FlushNone(View());
    }

    method SetErrors()
      requires Valid()
      modifies this, sender, sender.stream, sender.stream.buf, receiver, receiver.reassembler,
               receiver.reassembler.output, receiver.reassembler.output.buf
      ensures Valid()
      ensures View() == old(View()).SetErrors()
    {
      sender.stream.SetError();
      receiver.reassembler.output.SetError();
      linger := false;
    }

    method Reply(seg: TcpSegment)
      requires Valid()
      modifies this, sender, sender.stream, sender.stream.buf, receiver, receiver.reassembler,
               receiver.reassembler.output, receiver.reassembler.output.buf
      ensures Valid()
      ensures View() == old(View()).Reply(seg)
    {
      if seg.header.syn && !seg.header.ack && !initiator {
        sender.FillWindow();
      } else {
        sender.SendEmptySegment();
      }
      SendReply();
    }

    method SendReply()
      requires Valid()
      modifies this`segmentsOut, sender`segmentsOut
      ensures Valid()
      ensures View() == old(View()).SendReply()
    {
      if sender.segmentsOut != [] {
        var ackSeg := sender.segmentsOut[0];
        var h := Replied(ackSeg.header);
        TakeFront(ackSeg.(header := h));
      }
    }

    method WindowField() returns (win: u16)
      requires Valid()
      ensures win == TcpReceiver.ClippedWindow(View().receiver)
    {
      var window := receiver.WindowSize();
      if window > 0xffff {
        win := 0xffff;
      } else {
        win := window;
      }
    }

    method Replied(h: TcpHeader) returns (g: TcpHeader)
      requires Valid()
      ensures g == View().ReplyHeader(h)
    {
      var ackno := receiver.Ackno();
      var win := WindowField();
      g := h.(ackno := if ackno.Some? then ackno.value else h.ackno, ack := true, win := win);
    }

    method Absorb(seg: TcpSegment)
      requires Valid()
      modifies this, sender, sender.stream, sender.stream.buf, receiver, receiver.reassembler,
               receiver.reassembler.output, receiver.reassembler.output.buf
      ensures Valid()
      ensures View() == old(View()).Absorb(seg)
    {
      receiver.SegmentReceived(seg);
      if seg.header.ack {
        sender.AckReceived(seg.header.ackno, seg.header.win);
      }
    }

    method PassiveClose()
      requires Valid()
      modifies this`linger
      ensures Valid()
      ensures View() == old(View()).PassiveClose()
    {
      var eof := sender.stream.Eof();
      if receiver.reassembler.output.inputEnded && !eof {
        linger := false;
      }
    }

    method SegmentReceived(seg: TcpSegment)
      requires Valid()
      modifies this, sender, sender.stream, sender.stream.buf, receiver, receiver.reassembler,
               receiver.reassembler.output, receiver.reassembler.output.buf
      ensures Valid()
      ensures View() == old(View()).SegmentReceived(seg)
    {
      var active := Active();
      if !active {
        return;
      }
      sinceLast := 0;
      if seg.header.rst {
        SetErrors();
        return;
      }
      Absorb(seg);
      Answer(seg);
      PassiveClose();
    }

    method Answer(seg: TcpSegment)
      requires Valid()
      modifies this, sender, sender.stream, sender.stream.buf, receiver, receiver.reassembler,
               receiver.reassembler.output, receiver.reassembler.output.buf
      ensures Valid()
      ensures View() == old(View()).Answer(seg)
    {
      if seg.Length() > 0 {
        Reply(seg);
      } else {
        FlushBuffer();
      }
    }

    method Write(data: seq<byte>) returns (n: nat)
      requires Valid()
      modifies this, sender, sender.stream, sender.stream.buf, receiver, receiver.reassembler,
               receiver.reassembler.output, receiver.reassembler.output.buf
      ensures Valid()
      ensures View() == old(View()).Write(data)
      ensures n == if old(View()).Active() then Min(|data|, old(View()).sender.stream.Room()) else 0
    {
      n := 0;
      var active := Active();
      if !active {
        return;
      }
      n := sender.stream.Write(data);
      sender.FillWindow();
      FlushBuffer();
    }

    method EndInputStream()
      requires Valid()
      modifies this, sender, sender.stream, sender.stream.buf, receiver, receiver.reassembler,
               receiver.reassembler.output, receiver.reassembler.output.buf
      ensures Valid()
      ensures View() == old(View()).EndInputStream()
    {
      var active := Active();
      if !active {
        return;
      }
      sender.stream.EndInput();
      sender.FillWindow();
      FlushBuffer();
    }

    method Connect()
      requires Valid()
      modifies this, sender, sender.stream, sender.stream.buf, receiver, receiver.reassembler,
               receiver.reassembler.output, receiver.reassembler.output.buf
      ensures Valid()
      ensures View() == old(View()).Connect()
    {
      sender.FillWindow();
      if sender.segmentsOut != [] {
        TakeFront(sender.segmentsOut[0]);
        initiator := true;
      }
    }

    method UncleanShutdown()
      requires Valid()
      modifies this, sender, sender.stream, sender.stream.buf, receiver, receiver.reassembler,
               receiver.reassembler.output, receiver.reassembler.output.buf
      ensures Valid()
      ensures View() == old(View()).UncleanShutdown()
    {
      SetErrors();
      if sender.segmentsOut == [] {
        sender.SendEmptySegment();
      }
      var seg := sender.segmentsOut[0];
      var ackno := receiver.Ackno();
      var h := seg.header;
      if ackno.Some? {
        h := h.(ackno := ackno.value);
      }
      TakeFront(seg.(header := h.(rst := true)));
    }

    method CheckRetransmissions()
      requires Valid()
      modifies this, sender, sender.stream, sender.stream.buf, receiver, receiver.reassembler,
               receiver.reassembler.output, receiver.reassembler.output.buf
      ensures Valid()
      ensures View() == old(View()).CheckRetransmissions()
    {
      if sender.consecutiveRetransmissions > MAX_RETX_ATTEMPTS {
        UncleanShutdown();
      }
    }

    method Elapse(ms: nat)
      requires Valid()
      modifies this`sinceLast, sender
      ensures Valid()
      ensures View() == old(View()).Elapse(ms)
    {
      sinceLast := sinceLast + ms;
      sender.Tick(ms);
    }

    method Tick(ms: nat)
      requires Valid()
      modifies this, sender, sender.stream, sender.stream.buf, receiver, receiver.reassembler,
               receiver.reassembler.output, receiver.reassembler.output.buf
      ensures Valid()
      ensures View() == old(View()).Tick(ms)
    {
      var active := Active();
      if !active {
        return;
      }
      Elapse(ms);
      CheckRetransmissions();
      FlushBuffer();
    }
  }
}
