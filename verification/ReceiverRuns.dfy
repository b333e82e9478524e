/** What holds of a receiver over whole runs of incoming segments and reads. */
module ReceiverRuns {
  import opened Machine
  import opened WrappingIntegers
  import opened Segments
  import opened Assembly
  import opened TcpReceiver
  import AssemblyRuns

  datatype Event = Segment(seg: TcpSegment) | Read(n: nat)

  function Apply(r: Receiver, e: Event): (r': Receiver)
    requires r.Valid()
    ensures r'.Valid()
  {
    match e
    case Segment(seg) => r.SegmentReceived(seg)
    case Read(n) => r.Pop(n)
  }

  function RunFrom(r: Receiver, events: seq<Event>): (r': Receiver)
    requires r.Valid()
    ensures r'.Valid()
  {
    if events == [] then r else Apply(RunFrom(r, events[..|events| - 1]), events[|events| - 1])
  }

  function Run(capacity: nat, events: seq<Event>): (r: Receiver)
    ensures r.Valid()
  {
    RunFrom(NewReceiver(capacity), events)
  }

  /** Before any FIN, the acknowledgment number is the one after the last byte assembled. */
  ghost predicate AcksNext(r: Receiver)
  {
    r.syn && !r.end ==> r.expAck == r.asm.Written() + 1 && r.ack == Wrap(r.expAck, r.isn)
  }

  lemma ApplyAcksNext(r: Receiver, e: Event)
    requires r.Valid() && AcksNext(r)
    ensures AcksNext(Apply(r, e))
  {
  }

  lemma {:induction false} RunAcksNext(capacity: nat, events: seq<Event>)
    ensures AcksNext(Run(capacity, events))
  {
    if events != [] {
      RunAcksNext(capacity, events[..|events| - 1]);
      ApplyAcksNext(Run(capacity, events[..|events| - 1]), events[|events| - 1]);
    }
  }

  /** The first sequence number past the advertised window. */
  function RightEdge(r: Receiver): nat
    requires r.Valid()
  {
    r.expAck + r.WindowSize()
  }

  /** The same when the window is advertised in a 16-bit field. */
  function AdvertisedEdge(r: Receiver): nat
    requires r.Valid()
  {
    r.expAck + ClippedWindow(r)
  }

  lemma AcceptSteps(r: Receiver, seg: TcpSegment)
    requires r.Valid() && r.syn && !seg.header.syn
    ensures var x := Unwrap(seg.header.seqno, r.isn, r.checkpoint);
            r.SegmentReceived(seg) == r.Accept(seg, r.isn, x)
  {
  }

  lemma AcceptPushes(r: Receiver, seg: TcpSegment, seqno: u64)
    requires r.Valid() && !seg.header.syn && seqno > 0
    ensures r.Accept(seg, r.isn, seqno).asm == r.asm.Push(seg.payload, seqno - 1, r.end || seg.header.fin)
  {
  }

  lemma DataPushes(r: Receiver, seg: TcpSegment, index: nat)
    requires r.Valid() && r.syn && !r.end && !seg.header.syn && !seg.header.fin
    requires index == Unwrap(seg.header.seqno, r.isn, r.checkpoint) - 1
    ensures r.SegmentReceived(seg).asm == r.asm.Push(seg.payload, index, false)
  {
    AcceptSteps(r, seg);
    AcceptPushes(r, seg, index + 1);
  }

  lemma EdgeIs(r: Receiver)
    requires r.Valid() && AcksNext(r) && r.syn && !r.end
    ensures r.expAck == r.asm.Written() + 1 && RightEdge(r) == r.asm.Edge() + 1
  {
  }

  /** Advertised window and acceptance window are the same: the byte of a segment with sequence number
      `seqno + i` is newly stored or stays stored exactly if it lies in [ackno, ackno + window). */
  lemma WindowIsAcceptance(r: Receiver, seg: TcpSegment, i: nat, p: nat)
    requires r.Valid() && AcksNext(r) && r.syn && !r.end
    requires !seg.header.syn && !seg.header.fin && i < |seg.payload|
    requires p == Unwrap(seg.header.seqno, r.isn, r.checkpoint) - 1 + i && i <= p
    ensures var r' := r.SegmentReceived(seg);
            AssemblyRuns.Has(r'.asm, p) && r.asm.Written() <= p <==> r.expAck <= p + 1 < RightEdge(r)
  {
    DataPushes(r, seg, p - i);
    AssemblyRuns.PushWindow(r.asm, seg.payload, p - i, false, p);
    EdgeIs(r);
  }

  /** The exception: a segment without SYN at sequence number zero is not stored at all, although its later
      bytes may lie in the window, because its stream position wraps below zero. */
  lemma SegmentAtZeroIgnored(r: Receiver, seg: TcpSegment)
    requires r.Valid() && r.syn && !seg.header.syn && !seg.header.fin && !r.end
    requires Unwrap(seg.header.seqno, r.isn, r.checkpoint) == 0 && r.asm.Edge() < TWO64
    ensures r.SegmentReceived(seg).asm.held == r.asm.held
    ensures r.SegmentReceived(seg).asm.out.history == r.asm.out.history
  {
    AcceptSteps(r, seg);
    assert StreamIndex(seg, 0) == TWO64 - 1;
  }

  lemma ApplyKeepsEdge(r: Receiver, e: Event)
    requires r.Valid() && AcksNext(r) && r.syn && !Apply(r, e).end
    ensures var r' := Apply(r, e);
            r'.syn && !r.end && RightEdge(r) <= RightEdge(r') && AdvertisedEdge(r) <= AdvertisedEdge(r')
  {
    ApplyAcksNext(r, e);
    if e.Segment? && !e.seg.header.syn {
      var x := Unwrap(e.seg.header.seqno, r.isn, r.checkpoint);
      AcceptSteps(r, e.seg);
      AssemblyRuns.PushKeepsEdge(r.asm, e.seg.payload, StreamIndex(e.seg, x), r.end || e.seg.header.fin);
    }
  }

  /** Over any run up to the first FIN the right edge of the window never moves left, clipped or not. */
  lemma {:induction false} EdgesNeverMoveLeft(capacity: nat, events: seq<Event>, n: nat)
    requires n <= |events| && Run(capacity, events[..n]).syn && !Run(capacity, events).end
    ensures Run(capacity, events).syn && !Run(capacity, events[..n]).end
    ensures RightEdge(Run(capacity, events[..n])) <= RightEdge(Run(capacity, events))
    ensures AdvertisedEdge(Run(capacity, events[..n])) <= AdvertisedEdge(Run(capacity, events))
    decreases |events|
  {
    if n == |events| {
      assert events[..n] == events;
    } else {
      var m := |events| - 1;
      assert events[..m][..n] == events[..n];
      RunAcksNext(capacity, events[..m]);
      EndSticks(Run(capacity, events[..m]), events[m]);
      EdgesNeverMoveLeft(capacity, events[..m], n);
      ApplyKeepsEdge(Run(capacity, events[..m]), events[m]);
    }
  }

  lemma EndSticks(r: Receiver, e: Event)
    requires r.Valid()
    ensures r.end ==> Apply(r, e).end
  {
  }


  // Any segment

  /** The stream position of the first byte of a segment: its number less one, or the start of the stream if it has the
      SYN. */
  function Position(r: Receiver, seg: TcpSegment): int
  {
    if seg.header.syn then 0 else Unwrap(seg.header.seqno, r.isn, r.checkpoint) - 1
  }

  lemma PositionPushes(r: Receiver, seg: TcpSegment)
    requires r.Valid() && seg.header.syn != r.syn && Position(r, seg) >= 0
    ensures var r' := r.SegmentReceived(seg);
            && r'.asm == r.asm.Push(seg.payload, Position(r, seg), r'.end) && r'.syn
            && r'.end == (r.end || seg.header.fin) && r'.isn == (if seg.header.syn then seg.header.seqno else r.isn)
  {
  }

  /** With SYN or FIN or neither, before or after the end: the bytes of a segment the receiver looks at are there
      afterwards exactly if they lie before the edge or were there; the number to acknowledge is the one after the
      bytes written, or one more if the end is known and nothing is held. */
  lemma SegmentStores(r: Receiver, seg: TcpSegment, p: nat)
    requires r.Valid() && seg.header.syn != r.syn && Position(r, seg) >= 0
    ensures var r' := r.SegmentReceived(seg);
            && (AssemblyRuns.Has(r'.asm, p) <==>
                  || AssemblyRuns.Has(r.asm, p)
                  || (Position(r, seg) <= p < Position(r, seg) + |seg.payload| && p < r.asm.Edge()))
            && r'.expAck == r'.asm.Written() + (if r'.end && r'.asm.held == map[] then 2 else 1)
            && r'.ack == Wrap(r'.expAck, r'.isn)
  {
    var r' := r.SegmentReceived(seg);
    PositionPushes(r, seg);
    AssemblyRuns.PushHas(r.asm, seg.payload, Position(r, seg), r'.end, p);
    assert Within(p, Position(r, seg), |seg.payload|) <==> Position(r, seg) <= p < Position(r, seg) + |seg.payload|;
    assert |r'.asm.held| == 0 <==> r'.asm.held == map[];
  }

  lemma SynPush(a: Assembly, data: seq<byte>, eof: bool)
    requires a.Valid() && a.Written() == 0 && a.held == map[]
    ensures a.Push(data, 0, eof).out.history == data[..Min(|data|, a.Edge())]
  {
    var b, stream, n := a.Push(data, 0, eof), data, Min(|data|, a.Edge());
    AssemblyRuns.PushAgrees(a, data, 0, eof, stream);
    AssemblyRuns.PushHas(a, data, 0, eof, b.Written());
    assert Within(b.Written(), 0, |data|) <==> b.Written() < |data|;
    if b.Written() > 0 {
      AssemblyRuns.PushHas(a, data, 0, eof, b.Written() - 1);
      assert Within(b.Written() - 1, 0, |data|) <==> b.Written() - 1 < |data|;
    }
  }

  /** Data that comes with the SYN is the start of the stream. */
  lemma SynData(capacity: nat, seg: TcpSegment)
    requires seg.header.syn
    ensures var r := NewReceiver(capacity).SegmentReceived(seg);
            r.asm.out.history == seg.payload[..Min(|seg.payload|, capacity)] && r.isn == seg.header.seqno
  {
    PositionPushes(NewReceiver(capacity), seg);
    SynPush(NewReceiver(capacity).asm, seg.payload, seg.header.fin);
  }
}
