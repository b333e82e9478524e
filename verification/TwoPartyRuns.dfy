/** End-to-end safety over every run of sender, channel and receiver. */
module TwoPartyRuns {
  import opened Machine
  import opened Segments
  import opened Assembly
  import opened SenderInvariant
  import opened TwoParty
  import opened TwoPartySafety
  import opened SenderCut
  import opened TwoPartyWindow
  import AssemblyRuns

  /** Everything that holds of a sender and a receiver joined by the channel. */
  ghost predicate FullInv(w: World)
  {
    WorldInv(w) && LogInv(w.sender, [], w.receiver, w.acks)
  }

  lemma InitFull(sendCapacity: nat, recvCapacity: nat, initialRto: u16, isn: u32)
    ensures FullInv(Init(sendCapacity, recvCapacity, initialRto, isn))
  {
    var w := Init(sendCapacity, recvCapacity, initialRto, isn);
    InitInv(sendCapacity, recvCapacity, initialRto, isn);
    assert CutInv(w.sender, [], false) && FinInWindow(w.sender, w.receiver, false);
  }

  lemma NextInv(w: World, step: Step)
    requires FullInv(w) && Enabled(w, step) && w.sender.nextSeqno < TWO31
    ensures WorldInv(Next(w, step))
  {
    match step
    case Write(data) => WriteStep(w, data);
    case Close => CloseStep(w);
    case Fill => FillStep(w);
    case Tick(ms) => TickStep(w, ms);
    case Empty => EmptyStep(w);
    case DeliverSegment(seg) =>
      assert Sendable(seg, w.sender);
      if Next(w, step).finKept { FinsFit(w.sender, [], w.receiver, w.acks, seg); }
      DeliverSegmentStep(w, seg);
    case Read(n) => ReadStep(w, n);
    case EmitAck => EmitAckStep(w);
    case DeliverAck(a) => DeliverAckStep(w, a);
  }

  lemma NextLog(w: World, step: Step)
    requires FullInv(w) && Enabled(w, step) && w.sender.nextSeqno < TWO31
    ensures var w' := Next(w, step); LogInv(w'.sender, [], w'.receiver, w'.acks)
  {
    var s, r, acks := w.sender, w.receiver, w.acks;
    match step
    case Write(data) => WriteLog(s, data, [], r, acks);
    case Close => CloseLog(s, [], r, acks);
    case Fill => FillLog(s, [], r, acks);
    case Tick(ms) => TickLog(s, ms, [], r, acks);
    case Empty => EmptyLog(s, [], r, acks);
    case DeliverSegment(seg) =>
      assert Sendable(seg, s);
      DeliverLog(s, [], r, acks, seg);
    case Read(n) => ReadLog(s, [], r, acks, n);
    case EmitAck => AcksLog(s, [], r, acks, acks + {CurrentAck(r)});
    case DeliverAck(a) => AckLog(s, a, [], r, acks);
  }

  lemma NextMonotone(w: World, step: Step)
    requires w.Valid()
    ensures w.sender.nextSeqno <= Next(w, step).sender.nextSeqno
  {
    match step
    case Fill => FillMonotone(w.sender);
    case DeliverAck(a) => AckMonotone(w.sender, a.ackno, a.window);
    case _ =>
  }

  /** In every run that uses fewer than 2^31 sequence numbers, the invariant holds at the end. */
  lemma {:induction false} RunInv(w: World, steps: seq<Step>)
    requires FullInv(w) && Legal(w, steps) && Run(w, steps).sender.nextSeqno < TWO31
    ensures FullInv(Run(w, steps))
  {
    if steps != [] {
      var before, step := steps[..|steps| - 1], steps[|steps| - 1];
      NextMonotone(Run(w, before), step);
      RunInv(w, before);
      NextInv(Run(w, before), step);
      NextLog(Run(w, before), step);
    }
  }

  /** Acknowledgment soundness, up to the first FIN and beyond it if that FIN is kept. */
  lemma AckSoundness(sendCapacity: nat, recvCapacity: nat, initialRto: u16, isn: u32, steps: seq<Step>)
    requires var w := Init(sendCapacity, recvCapacity, initialRto, isn);
             Legal(w, steps) && Run(w, steps).sender.nextSeqno < TWO31 && Run(w, steps).finKept
    ensures var w := Run(Init(sendCapacity, recvCapacity, initialRto, isn), steps);
            AllAcked(w.sender, w.receiver)
  {
    var w0 := Init(sendCapacity, recvCapacity, initialRto, isn);
    InitFull(sendCapacity, recvCapacity, initialRto, isn);
    RunInv(w0, steps);
    AllAckedNow(Run(w0, steps));
  }

  /** End of stream: if the first FIN to arrive is kept, the receiver's output has ended exactly when the FIN
      has arrived and every byte of the sender's stream is assembled. */
  lemma EndOfStream(sendCapacity: nat, recvCapacity: nat, initialRto: u16, isn: u32, steps: seq<Step>)
    requires var w := Init(sendCapacity, recvCapacity, initialRto, isn);
             Legal(w, steps) && Run(w, steps).sender.nextSeqno < TWO31 && Run(w, steps).finKept
    ensures var w := Run(Init(sendCapacity, recvCapacity, initialRto, isn), steps);
            w.receiver.asm.out.ended <==>
            w.receiver.end && w.receiver.asm.out.history == w.sender.stream.history
  {
    var w0 := Init(sendCapacity, recvCapacity, initialRto, isn);
    InitFull(sendCapacity, recvCapacity, initialRto, isn);
    RunInv(w0, steps);
  }

  /** Window safety: in every run, whatever the channel does and however FINs arrive, no byte is sent more than one
      past what the receiver accepts, and none past it at all unless the last window the sender heard of was
      closed and the FIN is not out. */
  lemma WindowSafety(sendCapacity: nat, recvCapacity: nat, initialRto: u16, isn: u32, steps: seq<Step>)
    requires var w := Init(sendCapacity, recvCapacity, initialRto, isn);
             Legal(w, steps) && Run(w, steps).sender.nextSeqno < TWO31
    ensures var w := Run(Init(sendCapacity, recvCapacity, initialRto, isn), steps);
            InsideWindow(w.sender, w.receiver)
  {
    InitFull(sendCapacity, recvCapacity, initialRto, isn);
    RunInv(Init(sendCapacity, recvCapacity, initialRto, isn), steps);
  }

  /** So every byte of every segment ever sent is there once the segment is delivered after the SYN, but for a
      probe past the edge of the window. */
  lemma SentIsKept(w: World, seg: TcpSegment, p: nat)
    requires FullInv(w) && seg in w.sender.segmentsOut && w.sender.nextSeqno < TWO31 && w.receiver.syn
    requires !seg.header.syn && FinPosition(w.receiver, seg) - |seg.payload| <= p < FinPosition(w.receiver, seg)
    ensures AssemblyRuns.Has(w.receiver.SegmentReceived(seg).asm, p) || p == w.receiver.asm.Edge()
  {
    var s, r := w.sender, w.receiver;
    assert Sendable(seg, s);
    var from: nat :| from + seg.Length() <= s.nextSeqno && SentAt(seg, from, s.isn, s.stream.history, s.finSent);
    ReceivedIs(r, s, seg, from);
    SegmentUnwraps(r, s, seg, from);
    PayloadFits(s, seg, from);
    AcceptFields(r, seg, s.isn, from);
    assert Within(p, PushIndex(seg, from), |seg.payload|);
    AssemblyRuns.PushHas(r.asm, seg.payload, PushIndex(seg, from), r.end || seg.header.fin, p);
  }
}
