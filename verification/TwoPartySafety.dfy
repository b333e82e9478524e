/** End-to-end safety: what holds in every run of sender, channel and receiver. */
module TwoPartySafety {
  import opened Machine
  import opened WrappingIntegers
  import opened Segments
  import opened Assembly
  import opened TcpSender
  import opened TcpReceiver
  import opened SenderInvariant
  import opened SenderSteps
  import opened SenderProgress
  import opened TwoParty
  import AssemblyRuns

  /** The sequence number of the first byte or FIN the receiver has not got; none before the SYN. */
  function Frontier(r: Receiver): nat
  {
    if !r.syn then 0 else r.asm.Written() + 1 + (if r.end && r.asm.held == map[] then 1 else 0)
  }

  ghost predicate Below(a: Assembly, n: nat)
  {
    a.Written() <= n && forall p :: p in a.held ==> p < n
  }

  /** What the receiver has is a part of what the sender has sent, byte for byte. */
  ghost predicate ReceiverOk(r: Receiver, s: Sender)
  {
    && r.Valid()
    && AssemblyRuns.Agrees(r.asm, s.stream.history)
    && Below(r.asm, s.stream.read)
    && r.checkpoint <= s.nextSeqno
    && (r.end ==> s.finSent)
    && (r.syn ==> s.syn && r.isn == s.isn && r.expAck == Frontier(r) && r.ack == Wrap(r.expAck, r.isn))
    && (!r.syn ==> !r.end && r.checkpoint == 0 && r.asm.Written() == 0 && r.asm.held == map[]
                   && !r.asm.eofKept && !r.asm.out.ended)
  }

  /** The end mark has been taken with the last byte, and the output has ended exactly if it has been taken
      and all `total` bytes are assembled. */
  ghost predicate EndOk(a: Assembly, end: bool, total: nat)
  {
    && (a.eofKept <==> end)
    && (end && total > 0 ==> AssemblyRuns.Has(a, total - 1))
    && (a.out.ended <==> end && a.Written() == total)
  }

  ghost predicate AckOk(a: AckMessage, isn: u32, frontier: nat)
  {
    exists v: nat :: v <= frontier && a.ackno == Wrap(v, isn)
  }

  /** No acknowledgment, delivered or under way, is for more than the receiver has got. */
  ghost predicate AckSound(w: World)
  {
    && EndOk(w.receiver.asm, w.receiver.end, |w.sender.stream.history|)
    && (forall a <- w.acks :: AckOk(a, w.sender.isn, Frontier(w.receiver)))
    && Una(w.sender) <= Frontier(w.receiver)
  }

  ghost predicate WorldInv(w: World)
  {
    && Inv(w.sender)
    && ReceiverOk(w.receiver, w.sender)
    && (w.acks != {} ==> w.receiver.syn)
    && (w.finKept ==> AckSound(w))
  }

  lemma InitInv(sendCapacity: nat, recvCapacity: nat, initialRto: u16, isn: u32)
    ensures WorldInv(Init(sendCapacity, recvCapacity, initialRto, isn))
  {
    NewInv(sendCapacity, initialRto, isn);
  }

  lemma NothingHeldWhenAll(a: Assembly, total: nat)
    requires a.Valid() && Below(a, total) && a.Written() == total
    ensures a.held == map[]
  {
    assert a.held.Keys == {};
  }

  /** With the last byte there, the receiver holds nothing exactly if it has everything. */
  lemma EndHeld(a: Assembly, total: nat)
    requires a.Valid() && Below(a, total) && (total > 0 ==> AssemblyRuns.Has(a, total - 1))
    ensures a.held == map[] <==> a.Written() == total
  {
    if total > 0 {
      AssemblyRuns.NothingHeld(a, total);
    } else {
      NothingHeldWhenAll(a, 0);
    }
  }

  /** The receiver never has more than has been sent. */
  lemma FrontierBound(w: World)
    requires WorldInv(w) && w.finKept
    ensures Frontier(w.receiver) <= w.sender.nextSeqno
  {
    var a, total := w.receiver.asm, |w.sender.stream.history|;
    if w.receiver.end { EndHeld(a, total); }
  }

  // Sender steps

  lemma ReceiverOkGrows(r: Receiver, s: Sender, s': Sender)
    requires ReceiverOk(r, s) && Progress(s, s')
    ensures ReceiverOk(r, s')
  {
  }

  lemma SenderStep(w: World, s': Sender)
    requires WorldInv(w) && Inv(s') && Progress(w.sender, s')
    requires w.finKept ==> Una(s') <= Frontier(w.receiver)
    ensures WorldInv(w.(sender := s'))
  {
    ReceiverOkGrows(w.receiver, w.sender, s');
    var w' := w.(sender := s');
    if w.finKept {
      assert w.receiver.end ==> s'.stream.history == w.sender.stream.history;
      forall a <- w.acks ensures AckOk(a, s'.isn, Frontier(w.receiver)) {
        assert AckOk(a, w.sender.isn, Frontier(w.receiver));
      }
    }
  }

  lemma WriteStep(w: World, data: seq<byte>)
    requires WorldInv(w) && MayWrite(w.sender, data)
    ensures WorldInv(Next(w, Write(data)))
  {
    WriteInv(w.sender, data);
    SenderStep(w, w.sender.(stream := w.sender.stream.Write(data)));
  }

  lemma CloseStep(w: World)
    requires WorldInv(w)
    ensures WorldInv(Next(w, Close))
  {
    CloseInv(w.sender);
    SenderStep(w, w.sender.(stream := w.sender.stream.(ended := true)));
  }

  lemma FillStep(w: World)
    requires WorldInv(w)
    ensures WorldInv(Next(w, Fill))
  {
    FillWindowInv(w.sender);
    FillProgress(w.sender);
    SenderStep(w, w.sender.FillWindow());
  }

  lemma TickStep(w: World, ms: nat)
    requires WorldInv(w)
    ensures WorldInv(Next(w, Tick(ms)))
  {
    TickInv(w.sender, ms);
    SenderStep(w, w.sender.Tick(ms));
  }

  lemma EmptyStep(w: World)
    requires WorldInv(w)
    ensures WorldInv(Next(w, Empty))
  {
    SendEmptyInv(w.sender);
    SenderStep(w, w.sender.SendEmptySegment());
  }

  /** Below 2^31 sequence numbers, an acknowledgment under way is unwrapped to what it was wrapped from. */
  lemma AckUnwraps(s: Sender, v: nat)
    requires Windowed(s) && v <= s.nextSeqno < TWO31
    ensures AckAbs(s, Wrap(v, s.isn)) == v
  {
    UnwrapWrap(v, s.isn, s.absAckno);
  }

  lemma DeliverAckStep(w: World, a: AckMessage)
    requires WorldInv(w) && a in w.acks && w.sender.nextSeqno < TWO31
    ensures WorldInv(Next(w, DeliverAck(a)))
  {
    var s := w.sender;
    AckReceivedIs(s, a.ackno, a.window);
    AckReceivedInv(s, a.ackno, a.window);
    AckProgress(s, AckAbs(s, a.ackno), a.window);
    if w.finKept {
      FrontierBound(w);
      assert AckOk(a, s.isn, Frontier(w.receiver));
      var v: nat :| v <= Frontier(w.receiver) && a.ackno == Wrap(v, s.isn);
      AckUnwraps(s, v);
    }
    SenderStep(w, s.AckReceived(a.ackno, a.window));
  }

  lemma EmitAckStep(w: World)
    requires WorldInv(w) && w.receiver.syn
    ensures WorldInv(Next(w, EmitAck))
  {
    var w' := Next(w, EmitAck);
    if w.finKept {
      forall a <- w'.acks ensures AckOk(a, w.sender.isn, Frontier(w.receiver)) {
        if a !in w.acks {
          assert Frontier(w.receiver) <= Frontier(w.receiver);
          assert a.ackno == Wrap(Frontier(w.receiver), w.sender.isn);
        }
      }
    }
  }

  lemma ReadStep(w: World, n: nat)
    requires WorldInv(w)
    ensures WorldInv(Next(w, Read(n)))
  {
    var w' := Next(w, Read(n));
    assert forall p: nat :: AssemblyRuns.Has(w.receiver.asm, p) <==> AssemblyRuns.Has(w'.receiver.asm, p);
    assert Frontier(w'.receiver) == Frontier(w.receiver);
    if w.finKept {
      forall a <- w'.acks ensures AckOk(a, w.sender.isn, Frontier(w'.receiver)) {
        assert AckOk(a, w.sender.isn, Frontier(w.receiver));
      }
    }
  }

  // Delivery of a segment

  /** A number that is less than half the space away from the receiver's checkpoint, and from the end of 64 bits. */
  predicate Near(r: Receiver, s: Sender, from: nat)
  {
    from <= s.nextSeqno && s.nextSeqno + TWO31 < TWO64 && Distance(from, r.checkpoint) < TWO31
  }

  /** The segment is taken for the sequence number it was sent at. */
  lemma SegmentUnwraps(r: Receiver, s: Sender, seg: TcpSegment, from: nat)
    requires ReceiverOk(r, s) && Near(r, s, from)
    requires SentAt(seg, from, s.isn, s.stream.history, s.finSent)
    ensures r.syn ==> Unwrap(seg.header.seqno, r.isn, r.checkpoint) == from
    ensures seg.header.syn && !r.syn ==>
              seg.header.seqno == s.isn && Unwrap(seg.header.seqno, s.isn, r.checkpoint) == from
  {
    UnwrapWrap(from, s.isn, r.checkpoint);
  }

  lemma ReceivedIs(r: Receiver, s: Sender, seg: TcpSegment, from: nat)
    requires ReceiverOk(r, s) && Near(r, s, from)
    requires SentAt(seg, from, s.isn, s.stream.history, s.finSent)
    ensures r.SegmentReceived(seg) == if seg.header.syn == r.syn then r else r.Accept(seg, s.isn, from)
  {
    SegmentUnwraps(r, s, seg, from);
  }

  /** The stream position a segment is pushed at. */
  function PushIndex(seg: TcpSegment, from: nat): nat
    requires from < TWO64
  {
    StreamIndex(seg, from)
  }

  lemma PayloadFits(s: Sender, seg: TcpSegment, from: nat)
    requires Counting(s) && s.stream.Valid() && from + seg.Length() <= s.nextSeqno < TWO64
    requires SentAt(seg, from, s.isn, s.stream.history, s.finSent)
    ensures seg.payload != [] ==> PushIndex(seg, from) == from - 1 && from - 1 + |seg.payload| <= s.stream.read
    ensures AssemblyRuns.IsSubstring(seg.payload, PushIndex(seg, from), s.stream.history)
  {
  }

  lemma PushStays(a: Assembly, data: seq<byte>, index: nat, eof: bool, stream: seq<byte>, n: nat)
    requires a.Valid() && AssemblyRuns.Agrees(a, stream) && Below(a, n)
    requires AssemblyRuns.IsSubstring(data, index, stream) && (data != [] ==> index + |data| <= n)
    ensures var b := a.Push(data, index, eof); AssemblyRuns.Agrees(b, stream) && Below(b, n)
  {
    AssemblyRuns.PushAgrees(a, data, index, eof, stream);
    AssemblyRuns.PushStaysBelow(a, data, index, eof, n);
  }

  lemma AcceptFields(r: Receiver, seg: TcpSegment, isn: u32, from: nat)
    requires r.Valid() && from < TWO64
    ensures var r' := r.Accept(seg, isn, from);
            && r'.asm == r.asm.Push(seg.payload, PushIndex(seg, from), r.end || seg.header.fin)
            && r'.syn && r'.end == (r.end || seg.header.fin) && r'.isn == isn && r'.checkpoint == from
            && r'.expAck == Frontier(r') && r'.ack == Wrap(r'.expAck, isn)
  {
    var r' := r.Accept(seg, isn, from);
    assert |r'.asm.held| == 0 <==> r'.asm.held == map[];
  }

  lemma AcceptOk(r: Receiver, s: Sender, seg: TcpSegment, from: nat)
    requires Inv(s) && ReceiverOk(r, s) && from + seg.Length() <= s.nextSeqno < TWO64
    requires SentAt(seg, from, s.isn, s.stream.history, s.finSent) && seg.header.syn != r.syn
    ensures ReceiverOk(r.Accept(seg, s.isn, from), s)
  {
    PayloadFits(s, seg, from);
    AcceptFields(r, seg, s.isn, from);
    PushStays(r.asm, seg.payload, PushIndex(seg, from), r.end || seg.header.fin, s.stream.history, s.stream.read);
  }

  /** The first end mark to be taken comes with the last byte, in the window, or when the last byte is there. */
  ghost predicate TakesEnd(a: Assembly, data: seq<byte>, index: nat, total: nat)
  {
    if data != [] then a.Written() < index + |data| == total <= a.Edge()
    else total > 0 ==> AssemblyRuns.Has(a, total - 1)
  }

  lemma PushEndOk(a: Assembly, data: seq<byte>, index: nat, end: bool, end': bool, total: nat)
    requires a.Valid() && EndOk(a, end, total) && Below(a, total)
    requires (data != [] ==> index + |data| <= total) && (end ==> end')
    requires end' && !end ==> TakesEnd(a, data, index, total)
    ensures EndOk(a.Push(data, index, end'), end', total) && Below(a.Push(data, index, end'), total)
  {
    var b := a.Push(data, index, end');
    AssemblyRuns.PushFlags(a, data, index, end');
    AssemblyRuns.PushStaysBelow(a, data, index, end', total);
    AssemblyRuns.PushKeepsEdge(a, data, index, end');
    if end' {
      if total > 0 { AssemblyRuns.PushHas(a, data, index, end', total - 1); }
      EndHeld(b, total);
    }
  }

  /** What the receiver has got, it keeps. */
  lemma FrontierGrows(r: Receiver, seg: TcpSegment, isn: u32, from: nat, total: nat)
    requires r.Valid() && from < TWO31 && Below(r.asm, total)
    requires EndOk(r.asm, r.end, total)
    requires var r' := r.Accept(seg, isn, from);
             EndOk(r'.asm, r'.end, total) && Below(r'.asm, total)
    ensures Frontier(r) <= Frontier(r.Accept(seg, isn, from))
  {
    var r' := r.Accept(seg, isn, from);
    AcceptFields(r, seg, isn, from);
    AssemblyRuns.PushKeepsEdge(r.asm, seg.payload, PushIndex(seg, from), r.end || seg.header.fin);
    if r.end {
      EndHeld(r.asm, total);
      EndHeld(r'.asm, total);
    }
  }

  /** The first FIN to arrive is stored whole, or the byte before it is there. */
  ghost predicate FinFits(r: Receiver, seg: TcpSegment)
  {
    var end := FinPosition(r, seg);
    seg.header.fin && r.syn && !r.end ==>
      if seg.payload != [] then r.asm.Written() < end <= r.asm.Edge()
      else end <= 0 || AssemblyRuns.Has(r.asm, end - 1)
  }

  lemma AcceptAckSound(w: World, seg: TcpSegment, from: nat)
    requires WorldInv(w) && AckSound(w) && w.finKept
    requires from + seg.Length() <= w.sender.nextSeqno < TWO31
    requires SentAt(seg, from, w.sender.isn, w.sender.stream.history, w.sender.finSent)
    requires seg.header.syn != w.receiver.syn && FinFits(w.receiver, seg)
    ensures AckSound(w.(receiver := w.receiver.Accept(seg, w.sender.isn, from)))
  {
    var s, r, total := w.sender, w.receiver, |w.sender.stream.history|;
    var r' := r.Accept(seg, s.isn, from);
    PayloadFits(s, seg, from);
    SegmentUnwraps(r, s, seg, from);
    AcceptFields(r, seg, s.isn, from);
    PushEndOk(r.asm, seg.payload, PushIndex(seg, from), r.end, r'.end, total);
    FrontierGrows(r, seg, s.isn, from, total);
    forall a <- w.acks ensures AckOk(a, s.isn, Frontier(r')) {
      assert AckOk(a, s.isn, Frontier(r));
      var v: nat :| v <= Frontier(r) && a.ackno == Wrap(v, s.isn);
      assert v <= Frontier(r') && a.ackno == Wrap(v, s.isn);
    }
  }

  /** Whatever the sender may have sent, the receiver takes in as a part of the sender's stream. */
  lemma ReceiveOk(r: Receiver, s: Sender, seg: TcpSegment)
    requires Inv(s) && ReceiverOk(r, s) && Sendable(seg, s) && s.nextSeqno < TWO31
    ensures ReceiverOk(r.SegmentReceived(seg), s)
  {
    var from: nat :| from + seg.Length() <= s.nextSeqno && SentAt(seg, from, s.isn, s.stream.history, s.finSent);
    ReceivedIs(r, s, seg, from);
    if seg.header.syn != r.syn { AcceptOk(r, s, seg, from); }
  }

  lemma DeliverSegmentStep(w: World, seg: TcpSegment)
    requires WorldInv(w) && Sendable(seg, w.sender) && w.sender.nextSeqno < TWO31
    requires Next(w, DeliverSegment(seg)).finKept ==> FinFits(w.receiver, seg)
    ensures WorldInv(Next(w, DeliverSegment(seg)))
  {
    var s, r := w.sender, w.receiver;
    var from: nat :| from + seg.Length() <= s.nextSeqno && SentAt(seg, from, s.isn, s.stream.history, s.finSent);
    ReceivedIs(r, s, seg, from);
    if seg.header.syn != r.syn {
      AcceptOk(r, s, seg, from);
      var w' := Next(w, DeliverSegment(seg));
      if w'.finKept {
        AcceptAckSound(w, seg, from);
      }
    }
  }

  /** The receiver's acknowledgment number is no more than the sender has sent, and every byte of a segment that
      the sender has dropped from its store has been assembled by the receiver, and so has the FIN. */
  ghost predicate AllAcked(s: Sender, r: Receiver)
  {
    && (r.syn ==> r.expAck <= s.nextSeqno)
    && (Una(s) > 0 ==> r.syn)
    && Min(Una(s) - 1, |s.stream.history|) <= r.asm.Written()
    && (s.finSent && s.outstanding == [] ==> r.end && r.asm.out.history == s.stream.history)
  }

  lemma AllAckedNow(w: World)
    requires WorldInv(w) && w.finKept
    ensures AllAcked(w.sender, w.receiver)
  {
    var s, r := w.sender, w.receiver;
    FrontierBound(w);
    TilesOrdered(s.outstanding, Una(s), s.nextSeqno, s.isn, s.stream.history, s.finSent);
    if r.end { EndHeld(r.asm, |s.stream.history|); }
  }

  // Sequence numbers only grow

  lemma {:induction false} LoopMonotone(s: Sender, segment: TcpSegment)
    requires s.stream.Valid()
    ensures s.nextSeqno <= s.FillLoop(segment).0.nextSeqno
    decreases s.stream.Size()
  {
    if s.stream.Size() > 0 && s.recvWdnSz > 0 {
      var (t, seg) := s.FillOne(segment);
      LoopMonotone(t, seg);
    }
  }

  lemma FillMonotone(s: Sender)
    requires s.stream.Valid()
    ensures s.nextSeqno <= s.FillWindow().nextSeqno
  {
    if s.syn { LoopMonotone(s, EMPTY_SEGMENT); }
  }

  lemma AckMonotone(s: Sender, ackno: u32, window: u16)
    requires s.stream.Valid()
    ensures s.nextSeqno <= s.AckReceived(ackno, window).nextSeqno
  {
    AckReceivedIs(s, ackno, window);
    FillMonotone(s.Acknowledge(AckAbs(s, ackno), window));
  }
}
