/** Connections over the wire: every segment a connection ever sends fits one datagram, and carried as bytes it does to
    its receiver what the segment itself does. */
module WireRuns {
  import opened Machine
  import opened Segments
  import opened Ipv4Wire
  import opened TcpOverIp
  import opened TcpConnection
  import opened ConnectionRuns
  import opened Duplex
  import opened SegmentSizes

  ghost predicate SendsSmall(c: Connection)
  {
    AllSmall(c.sender) && c.receiver.Valid() && forall seg <- c.segmentsOut :: Small(seg)
  }

  lemma FlushSmall(c: Connection)
    requires SendsSmall(c)
    ensures SendsSmall(c.FlushBuffer())
  {
    var segs := c.sender.segmentsOut;
    var out := StampAll(segs, c.receiver);
    forall seg <- out ensures Small(seg) {
      var i :| 0 <= i < |out| && out[i] == seg;
      assert segs[i] in segs;
    }
  }

  lemma FrontSmall(c: Connection, seg: TcpSegment)
    requires SendsSmall(c) && c.sender.segmentsOut != [] && Small(seg)
    ensures SendsSmall(c.TakeFront(seg))
  {
  }

  lemma FillFlushSmall(c: Connection, s: Sender)
    requires SendsSmall(c) && AllSmall(s)
    ensures SendsSmall(c.(sender := s.FillWindow()).FlushBuffer())
  {
    FillSmall(s);
    FlushSmall(c.(sender := s.FillWindow()));
  }

  lemma ConnectSmall(c: Connection)
    requires SendsSmall(c)
    ensures SendsSmall(c.Connect())
  {
    FillSmall(c.sender);
    var d := c.(sender := c.sender.FillWindow());
    if d.sender.segmentsOut != [] { FrontSmall(d, d.sender.segmentsOut[0]); }
  }

  lemma ShutdownSmall(c: Connection)
    requires SendsSmall(c)
    ensures SendsSmall(c.UncleanShutdown())
  {
    var d := c.SetErrors();
    var e := if d.sender.segmentsOut == [] then d.(sender := d.sender.SendEmptySegment()) else d;
    assert SendsSmall(e);
    var front := e.sender.segmentsOut[0];
    var h := if c.receiver.Ackno().Some? then front.header.(ackno := c.receiver.Ackno().value) else front.header;
    assert front in e.sender.segmentsOut;
    FrontSmall(e, front.(header := h.(rst := true)));
  }

  lemma TickSmall(c: Connection, ms: nat)
    requires SendsSmall(c)
    ensures SendsSmall(c.Tick(ms))
  {
    if c.Active() {
      var d := c.Elapse(ms);
      if c.sender.outstanding != [] { assert c.sender.outstanding[0] in c.sender.outstanding; }
      assert SendsSmall(d);
      ShutdownSmall(d);
      FlushSmall(d.CheckRetransmissions());
    }
  }

  lemma SendReplySmall(d: Connection)
    requires SendsSmall(d)
    ensures SendsSmall(d.SendReply())
  {
    if d.sender.segmentsOut != [] {
      var front := d.sender.segmentsOut[0];
      assert front in d.sender.segmentsOut;
      FrontSmall(d, front.(header := d.ReplyHeader(front.header)));
    }
  }

  lemma AnswerSmall(d: Connection, seg: TcpSegment)
    requires SendsSmall(d)
    ensures SendsSmall(d.Answer(seg))
  {
    FillSmall(d.sender);
    FlushSmall(d);
    SendReplySmall(d.(sender := d.sender.FillWindow()));
    SendReplySmall(d.(sender := d.sender.SendEmptySegment()));
  }

  lemma ReceiveSmall(c: Connection, seg: TcpSegment)
    requires SendsSmall(c)
    ensures SendsSmall(c.SegmentReceived(seg))
  {
    if c.Active() && !seg.header.rst {
      var b := c.(sinceLast := 0);
      AckSmall(c.sender, seg.header.ackno, seg.header.win);
      AnswerSmall(b.Absorb(seg), seg);
    }
  }

  lemma DoSmall(c: Connection, act: Act)
    requires SendsSmall(c)
    ensures SendsSmall(Do(c, act))
  {
    match act
    case Write(data) => FillFlushSmall(c, c.sender.(stream := c.sender.stream.Write(data)));
    case EndInput => FillFlushSmall(c, c.sender.(stream := c.sender.stream.(ended := true)));
    case Connect => ConnectSmall(c);
    case Tick(ms) => TickSmall(c, ms);
    case Receive(seg) => ReceiveSmall(c, seg);
    case Read(_) =>
  }

  /** In every run of two connections, whatever is delivered and written, every segment ever sent, queued or stored has
      at most 1452 bytes and a header of twenty. */
  lemma {:induction false} RunSmall(p: Pair, steps: seq<Step>)
    requires SendsSmall(p.a) && SendsSmall(p.b)
    ensures SendsSmall(Run(p, steps).a) && SendsSmall(Run(p, steps).b)
  {
    if steps != [] {
      var before, step := steps[..|steps| - 1], steps[|steps| - 1];
      RunSmall(p, before);
      DoSmall(if step.byA then Run(p, before).a else Run(p, before).b, step.act);
    }
  }

  // Ports and checksum

  /** The same segment but for the ports and the checksum. */
  predicate Same(seg: TcpSegment, other: TcpSegment)
  {
    other == seg.(header := seg.header.(
      sport := other.header.sport, dport := other.header.dport, cksum := other.header.cksum))
  }

  lemma AbsorbSame(c: Connection, seg: TcpSegment, other: TcpSegment)
    requires c.Valid() && Same(seg, other)
    ensures c.Absorb(other) == c.Absorb(seg)
  {
    assert c.receiver.SegmentReceived(other) == c.receiver.SegmentReceived(seg);
  }

  lemma AnswerSame(d: Connection, seg: TcpSegment, other: TcpSegment)
    requires d.Valid() && Same(seg, other)
    ensures d.Answer(other) == d.Answer(seg)
  {
  }

  /** A connection looks at neither. */
  lemma ReceiveSame(c: Connection, seg: TcpSegment, other: TcpSegment)
    requires c.Valid() && Same(seg, other)
    ensures c.SegmentReceived(other) == c.SegmentReceived(seg)
  {
    var b := c.(sinceLast := 0);
    AbsorbSame(b, seg, other);
    AnswerSame(b.Absorb(seg), seg, other);
  }

  /** The bytes a segment of a connection goes out as. */
  lemma SmallCrosses(a: Adapter, b: Adapter, seg: TcpSegment, bytes: seq<byte>)
    requires Small(seg) && !b.listening && b.source == a.destination && b.destination == a.source
    requires bytes == DatagramBytes(WrapTcpInIp(a, seg).value).value
    ensures |bytes| <= 1492
    ensures var (r, b') := UnwrapTcpInIp(b, ParseDatagram(bytes).0); r.Some? && Same(seg, r.value) && b' == b
  {
    SegmentCrosses(a, b, seg);
  }

  /** The wire is transparent: in every run of two connections, every segment that either has ever sent fits a datagram
      of at most 1492 bytes, and wrapped, serialized, parsed and unwrapped by mirrored adapters it does to any
      connection exactly what the segment itself does. So what is proved of runs holds over the wire. */
  lemma WireIsTransparent(p: Pair, rtA: u16, recvA: nat, sendA: nat, isnA: u32,
                          rtB: u16, recvB: nat, sendB: nat, isnB: u32, steps: seq<Step>,
                          a: Adapter, b: Adapter, seg: TcpSegment, y: Connection)
    requires p == NewPair(rtA, recvA, sendA, isnA, rtB, recvB, sendB, isnB)
    requires seg in Run(p, steps).a.segmentsOut || seg in Run(p, steps).b.segmentsOut
    requires !b.listening && b.source == a.destination && b.destination == a.source && y.Valid()
    ensures WrapTcpInIp(a, seg).Some? && DatagramBytes(WrapTcpInIp(a, seg).value).Some?
    ensures var bytes := DatagramBytes(WrapTcpInIp(a, seg).value).value;
            var (r, b') := UnwrapTcpInIp(b, ParseDatagram(bytes).0);
            |bytes| <= 1492 && b' == b && r.Some? && y.SegmentReceived(r.value) == y.SegmentReceived(seg)
  {
    RunSmall(p, steps);
    WireRoundTrip(a, seg);
    var bytes := DatagramBytes(WrapTcpInIp(a, seg).value).value;
    SmallCrosses(a, b, seg, bytes);
    ReceiveSame(y, seg, UnwrapTcpInIp(b, ParseDatagram(bytes).0).0.value);
  }
}
