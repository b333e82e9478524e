/** How the sender cuts its stream: every byte is sent in one slice, and always in the same one. So what a receiver has
    breaks off only where a slice ends. */
module Slices {
  import opened Machine
  import opened WrappingIntegers
  import opened Segments
  import opened Assembly
  import opened TcpSender
  import opened TcpReceiver
  import opened SenderInvariant
  import opened SenderSteps
  import opened SenderCut
  import opened TwoParty
  import opened TwoPartySafety
  import opened TwoPartyRuns
  import opened EarlyEnds
  import AssemblyRuns

  /** The payload is the slice of the stream that starts at the cut `i`. */
  ghost predicate SliceAt(seg: TcpSegment, i: nat, s: Sender, cuts: set<nat>)
  {
    && seg.payload != [] && seg.header.seqno == Wrap(i + 1, s.isn) && i in cuts
    && i + |seg.payload| in cuts && (forall c <- cuts :: c <= i || i + |seg.payload| <= c)
  }

  ghost predicate IsSlice(seg: TcpSegment, s: Sender, cuts: set<nat>)
  {
    seg.payload == [] || exists i: nat :: SliceAt(seg, i, s, cuts)
  }

  ghost predicate HasSlice(s: Sender, i: nat, cuts: set<nat>)
  {
    exists seg <- s.segmentsOut :: SliceAt(seg, i, s, cuts)
  }

  /** The cuts go from zero to what has been taken from the stream; the segments with data are slices, and every slice
      has been sent. */
  ghost predicate Sliced(s: Sender, cuts: set<nat>)
  {
    && 0 in cuts && s.stream.read in cuts && (forall c <- cuts :: c <= s.stream.read)
    && (forall seg <- s.segmentsOut :: IsSlice(seg, s, cuts))
    && (forall o <- s.outstanding :: IsSlice(o.seg, s, cuts))
    && (forall c <- cuts :: c < s.stream.read ==> HasSlice(s, c, cuts))
  }

  // Sender

  /** Nothing is taken from the stream, and what is sent is a slice or has no data. */
  lemma SameSlices(s: Sender, s': Sender, cuts: set<nat>)
    requires Sliced(s, cuts) && s'.isn == s.isn && s'.stream.read == s.stream.read
    requires s.segmentsOut <= s'.segmentsOut
    requires forall seg <- s'.segmentsOut ::
               seg in s.segmentsOut || seg.payload == [] || exists o <- s.outstanding :: o.seg == seg
    requires forall o <- s'.outstanding :: o in s.outstanding || o.seg.payload == []
    ensures Sliced(s', cuts)
  {
    forall seg <- s'.segmentsOut ensures IsSlice(seg, s', cuts) { SameSlice(seg, s, s', cuts); }
    forall o <- s'.outstanding ensures IsSlice(o.seg, s', cuts) { SameSlice(o.seg, s, s', cuts); }
    forall c <- cuts | c < s.stream.read ensures HasSlice(s', c, cuts) {
      assert HasSlice(s, c, cuts);
      var seg :| seg in s.segmentsOut && SliceAt(seg, c, s, cuts);
      assert seg in s'.segmentsOut && SliceAt(seg, c, s', cuts);
    }
  }

  lemma SameSlice(seg: TcpSegment, s: Sender, s': Sender, cuts: set<nat>)
    requires IsSlice(seg, s, cuts) && s'.isn == s.isn
    ensures IsSlice(seg, s', cuts)
  {
    if seg.payload != [] {
      var i: nat :| SliceAt(seg, i, s, cuts);
      assert SliceAt(seg, i, s', cuts);
    }
  }

  /** A new cut past all others. */
  lemma MoreCuts(seg: TcpSegment, i: nat, s: Sender, s': Sender, cuts: set<nat>, c: nat)
    requires SliceAt(seg, i, s, cuts) && s'.isn == s.isn && (forall b <- cuts :: b <= c)
    ensures SliceAt(seg, i, s', cuts + {c})
  {
  }

  lemma StillSlice(seg: TcpSegment, s: Sender, s': Sender, cuts: set<nat>, c: nat)
    requires IsSlice(seg, s, cuts) && s'.isn == s.isn && (forall b <- cuts :: b <= c)
    ensures IsSlice(seg, s', cuts + {c})
  {
    if seg.payload != [] {
      var i: nat :| SliceAt(seg, i, s, cuts);
      MoreCuts(seg, i, s, s', cuts, c);
    }
  }

  lemma StillHasSlice(s: Sender, i: nat, s': Sender, cuts: set<nat>, c: nat)
    requires HasSlice(s, i, cuts) && s'.isn == s.isn && s.segmentsOut <= s'.segmentsOut && (forall b <- cuts :: b <= c)
    ensures HasSlice(s', i, cuts + {c})
  {
    var seg :| seg in s.segmentsOut && SliceAt(seg, i, s, cuts);
    MoreCuts(seg, i, s, s', cuts, c);
    assert seg in s'.segmentsOut;
  }

  lemma NewSlice(s: Sender, s': Sender, seg: TcpSegment, cuts: set<nat>)
    requires (forall c <- cuts :: c <= s.stream.read) && s.stream.read in cuts && s'.isn == s.isn
    requires seg.payload != [] && s'.stream.read == s.stream.read + |seg.payload|
    requires seg.header.seqno == Wrap(s.stream.read + 1, s.isn)
    ensures SliceAt(seg, s.stream.read, s', cuts + {s'.stream.read})
  {
  }

  /** The next slice is sent. */
  lemma AddsSlice(s: Sender, s': Sender, seg: TcpSegment, cuts: set<nat>)
    requires Sliced(s, cuts) && s'.isn == s.isn && s'.segmentsOut == s.segmentsOut + [seg]
    requires forall o <- s'.outstanding :: o in s.outstanding || o.seg == seg
    requires seg.payload != [] && s'.stream.read == s.stream.read + |seg.payload|
    requires seg.header.seqno == Wrap(s.stream.read + 1, s.isn)
    ensures Sliced(s', cuts + {s'.stream.read})
  {
    var c' := s'.stream.read;
    NewSlice(s, s', seg, cuts);
    forall q <- s'.segmentsOut ensures IsSlice(q, s', cuts + {c'}) {
      if q != seg { StillSlice(q, s, s', cuts, c'); }
    }
    forall o <- s'.outstanding ensures IsSlice(o.seg, s', cuts + {c'}) {
      if o.seg != seg { StillSlice(o.seg, s, s', cuts, c'); }
    }
    forall c <- cuts | c < c' ensures HasSlice(s', c, cuts + {c'}) {
      if c < s.stream.read { StillHasSlice(s, c, s', cuts, c'); } else { assert seg in s'.segmentsOut; }
    }
  }

  lemma OneSlices(s: Sender, segment: TcpSegment, cuts: set<nat>)
    requires Inv(s) && s.syn && !s.finSent && segment.header == DEFAULT_HEADER && Sliced(s, cuts)
    requires s.stream.Size() > 0 && s.recvWdnSz > 0
    ensures var t := s.FillOne(segment).0; Sliced(t, cuts + {t.stream.read})
  {
    FillOneIs(s, segment);
    TakenSound(s);
    TakenSentAt(s);
    SendAdds(Taken(s), TakenSegment(s));
    AddsSlice(s, s.FillOne(segment).0, Numbered(s, TakenSegment(s)), cuts);
  }

  lemma {:induction false} LoopSlices(s: Sender, segment: TcpSegment, cuts: set<nat>) returns (cuts': set<nat>)
    requires Inv(s) && s.syn && (s.finSent || segment.header == DEFAULT_HEADER) && Sliced(s, cuts)
    ensures cuts <= cuts' && Sliced(s.FillLoop(segment).0, cuts')
    decreases s.stream.Size()
  {
    cuts' := cuts;
    if s.stream.Size() > 0 && s.recvWdnSz > 0 {
      var (t, seg) := s.FillOne(segment);
      FillOneInv(s, segment);
      OneSlices(s, segment, cuts);
      cuts' := LoopSlices(t, seg, cuts + {t.stream.read});
    }
  }

  /** SYN and FIN alone carry no data. */
  lemma SendsNoData(s: Sender, t: Sender, segment: TcpSegment, cuts: set<nat>)
    requires Tiling(t) && Plain(segment) && segment.Length() > 0 && segment.payload == [] && Sliced(s, cuts)
    requires SentAt(Numbered(t, segment), t.nextSeqno, t.isn, t.stream.history, t.finSent)
    requires t.segmentsOut == s.segmentsOut && t.outstanding == s.outstanding && t.stream == s.stream && t.isn == s.isn
    ensures Sliced(t.SendSegment(segment), cuts)
  {
    SendAdds(t, segment);
    SameSlices(s, t.SendSegment(segment), cuts);
  }

  /** What the sender is when it sends the FIN alone, and what it sends. */
  lemma SendsFin(s: Sender, segment: TcpSegment, t: Sender, seg: TcpSegment)
    requires Inv(s) && s.syn && !s.finSent && s.stream.Eof() && s.recvWdnSz > 0
    requires segment.header == DEFAULT_HEADER && segment.payload == []
    requires t == s.(recvWdnSz := s.recvWdnSz - 1, finSent := true)
    requires seg == segment.(header := segment.header.(fin := true))
    ensures t.SendSegment(seg) == s.FillFin(segment) && Tiling(t)
    ensures SentAt(Numbered(t, seg), t.nextSeqno, t.isn, t.stream.history, t.finSent)
  {
    TilesGrow(s.outstanding, Una(s), s.nextSeqno, s.isn, s.stream.history, s.finSent, t.stream.history, t.finSent);
  }

  lemma FinSlices(s: Sender, segment: TcpSegment, cuts: set<nat>)
    requires Inv(s) && s.syn && (s.finSent || segment.header == DEFAULT_HEADER) && Sliced(s, cuts)
    requires !s.finSent && s.stream.Eof() && s.recvWdnSz > 0 ==> segment.payload == []
    ensures Sliced(s.FillFin(segment), cuts)
  {
    if !s.finSent && s.stream.Eof() && s.recvWdnSz > 0 {
      var seg := segment.(header := segment.header.(fin := true));
      var t := s.(recvWdnSz := s.recvWdnSz - 1, finSent := true);
      SendsFin(s, segment, t, seg);
      SendsNoData(s, t, seg, cuts);
    }
  }

  lemma FillSlices(s: Sender, cuts: set<nat>) returns (cuts': set<nat>)
    requires Inv(s) && Sliced(s, cuts)
    ensures cuts <= cuts' && Sliced(s.FillWindow(), cuts')
  {
    if !s.syn {
      TilesOrdered(s.outstanding, Una(s), s.nextSeqno, s.isn, s.stream.history, s.finSent);
      SendsNoData(s, s.(syn := true), EMPTY_SEGMENT.(header := DEFAULT_HEADER.(syn := true)), cuts);
      cuts' := cuts;
    } else {
      var (t, seg) := s.FillLoop(EMPTY_SEGMENT);
      FillLoopInv(s, EMPTY_SEGMENT);
      cuts' := LoopSlices(s, EMPTY_SEGMENT, cuts);
      FinSlices(t, seg, cuts');
    }
  }

  lemma AckSlices(s: Sender, ackno: u32, window: u16, cuts: set<nat>) returns (cuts': set<nat>)
    requires Inv(s) && s.syn && Sliced(s, cuts)
    ensures cuts <= cuts' && Sliced(s.AckReceived(ackno, window), cuts')
  {
    var abs := AckAbs(s, ackno);
    AckReceivedIs(s, ackno, window);
    cuts' := cuts;
    if abs <= s.nextSeqno {
      if abs + window < s.nextSeqno {
        SameSlices(s, s.(recvWdnSz := 0), cuts);
      } else {
        var t := s.Acknowledge(abs, window);
        AcknowledgeInv(s, abs, window);
        SameSlices(s, t, cuts);
        cuts' := FillSlices(t, cuts);
      }
    }
  }

  lemma TickSlices(s: Sender, ms: nat, cuts: set<nat>)
    requires Inv(s) && Sliced(s, cuts)
    ensures Sliced(s.Tick(ms), cuts)
  {
    if s.outstanding != [] { assert s.outstanding[0] in s.outstanding; }
    SameSlices(s, s.Tick(ms), cuts);
  }

  // Receiver

  /** What is there is preceded by what is there, or starts at a cut. */
  ghost predicate BreaksAtCuts(a: Assembly, cuts: set<nat>)
  {
    forall p: nat :: AssemblyRuns.Has(a, p + 1) && !AssemblyRuns.Has(a, p) ==> p + 1 in cuts
  }

  lemma PushBreaks(a: Assembly, data: seq<byte>, index: nat, eof: bool, cuts: set<nat>)
    requires a.Valid() && BreaksAtCuts(a, cuts) && (data != [] ==> index in cuts)
    ensures BreaksAtCuts(a.Push(data, index, eof), cuts)
  {
    var b := a.Push(data, index, eof);
    forall p: nat | AssemblyRuns.Has(b, p + 1) && !AssemblyRuns.Has(b, p) ensures p + 1 in cuts {
      AssemblyRuns.PushHas(a, data, index, eof, p);
      AssemblyRuns.PushHas(a, data, index, eof, p + 1);
      InSpan(p, index, |data|);
      InSpan(p + 1, index, |data|);
    }
  }

  /** The slice a segment carries is the one it was sent at. */
  lemma SliceIsThere(s: Sender, seg: TcpSegment, from: nat, i: nat, cuts: set<nat>)
    requires Counting(s) && from + seg.Length() <= s.nextSeqno < TWO31 && (forall c <- cuts :: c <= s.stream.read)
    requires SentAt(seg, from, s.isn, s.stream.history, s.finSent) && SliceAt(seg, i, s, cuts)
    ensures from == i + 1
  {
    WrapInjective(from, i + 1, s.isn);
  }

  lemma StartsAtCut(s: Sender, seg: TcpSegment, from: nat, cuts: set<nat>)
    requires Counting(s) && from + seg.Length() <= s.nextSeqno < TWO31 && (forall c <- cuts :: c <= s.stream.read)
    requires SentAt(seg, from, s.isn, s.stream.history, s.finSent) && IsSlice(seg, s, cuts) && seg.payload != []
    ensures PushIndex(seg, from) in cuts
  {
    var i: nat :| SliceAt(seg, i, s, cuts);
    SliceIsThere(s, seg, from, i, cuts);
  }

  lemma AcceptBreaks(r: Receiver, s: Sender, seg: TcpSegment, from: nat, cuts: set<nat>)
    requires r.Valid() && Counting(s) && s.stream.Valid() && from + seg.Length() <= s.nextSeqno < TWO31
    requires SentAt(seg, from, s.isn, s.stream.history, s.finSent) && IsSlice(seg, s, cuts)
    requires BreaksAtCuts(r.asm, cuts) && (forall c <- cuts :: c <= s.stream.read)
    ensures BreaksAtCuts(r.Accept(seg, s.isn, from).asm, cuts)
  {
    AcceptFields(r, seg, s.isn, from);
    if seg.payload != [] { StartsAtCut(s, seg, from, cuts); }
    PushBreaks(r.asm, seg.payload, PushIndex(seg, from), r.end || seg.header.fin, cuts);
  }

  lemma DeliverBreaksAt(r: Receiver, s: Sender, seg: TcpSegment, from: nat, cuts: set<nat>)
    requires ReceiverOk(r, s) && Counting(s) && s.stream.Valid() && from + seg.Length() <= s.nextSeqno < TWO31
    requires SentAt(seg, from, s.isn, s.stream.history, s.finSent) && IsSlice(seg, s, cuts)
    requires BreaksAtCuts(r.asm, cuts) && (forall c <- cuts :: c <= s.stream.read)
    ensures BreaksAtCuts(r.SegmentReceived(seg).asm, cuts)
  {
    ReceivedIs(r, s, seg, from);
    if seg.header.syn != r.syn { AcceptBreaks(r, s, seg, from, cuts); }
  }

  lemma DeliverBreaks(r: Receiver, s: Sender, seg: TcpSegment, cuts: set<nat>)
    requires Inv(s) && ReceiverOk(r, s) && s.nextSeqno < TWO31 && seg in s.segmentsOut && Sliced(s, cuts)
    requires BreaksAtCuts(r.asm, cuts)
    ensures BreaksAtCuts(r.SegmentReceived(seg).asm, cuts)
  {
    assert Sendable(seg, s);
    var from: nat :| from + seg.Length() <= s.nextSeqno && SentAt(seg, from, s.isn, s.stream.history, s.finSent);
    DeliverBreaksAt(r, s, seg, from, cuts);
  }

  // Runs

  ghost predicate SlicedWorld(w: World, cuts: set<nat>)
  {
    FullInv(w) && Sliced(w.sender, cuts) && BreaksAtCuts(w.receiver.asm, cuts)
  }

  lemma SenderSlices(w: World, step: Step, cuts: set<nat>) returns (cuts': set<nat>)
    requires FullInv(w) && Enabled(w, step) && Sliced(w.sender, cuts)
    ensures cuts <= cuts' && Sliced(Next(w, step).sender, cuts')
  {
    var s := w.sender;
    cuts' := cuts;
    match step {
      case Write(data) => SameSlices(s, s.(stream := s.stream.Write(data)), cuts);
      case Close => SameSlices(s, s.(stream := s.stream.(ended := true)), cuts);
      case Fill => cuts' := FillSlices(s, cuts);
      case Tick(ms) => TickSlices(s, ms, cuts);
      case Empty => SameSlices(s, s.SendEmptySegment(), cuts);
      case DeliverAck(a) => cuts' := AckSlices(s, a.ackno, a.window, cuts);
      case _ =>
    }
  }

  lemma ReadBreaks(a: Assembly, n: nat, cuts: set<nat>)
    requires a.Valid() && BreaksAtCuts(a, cuts)
    ensures BreaksAtCuts(a.Pop(n), cuts)
  {
    assert forall p: nat :: AssemblyRuns.Has(a.Pop(n), p) <==> AssemblyRuns.Has(a, p);
  }

  lemma ReceiverBreaks(w: World, step: Step, cuts: set<nat>)
    requires SlicedWorld(w, cuts) && Enabled(w, step) && w.sender.nextSeqno < TWO31
    ensures BreaksAtCuts(Next(w, step).receiver.asm, cuts)
  {
    match step
    case DeliverSegment(seg) => DeliverBreaks(w.receiver, w.sender, seg, cuts);
    case Read(n) => ReadBreaks(w.receiver.asm, n, cuts);
    case _ =>
  }

  lemma {:induction false} RunSlices(w: World, steps: seq<Step>, cuts: set<nat>) returns (cuts': set<nat>)
    requires SlicedWorld(w, cuts) && Legal(w, steps) && Run(w, steps).sender.nextSeqno < TWO31
    ensures SlicedWorld(Run(w, steps), cuts')
  {
    cuts' := cuts;
    if steps != [] {
      var before, step := steps[..|steps| - 1], steps[|steps| - 1];
      var v := Run(w, before);
      NextMonotone(v, step);
      var c := RunSlices(w, before, cuts);
      NextInv(v, step);
      NextLog(v, step);
      ReceiverBreaks(v, step, c);
      cuts' := SenderSlices(v, step, c);
    }
  }

  lemma InitSliced(sendCapacity: nat, recvCapacity: nat, initialRto: u16, isn: u32)
    ensures SlicedWorld(Init(sendCapacity, recvCapacity, initialRto, isn), {0})
  {
    InitFull(sendCapacity, recvCapacity, initialRto, isn);
  }
}
