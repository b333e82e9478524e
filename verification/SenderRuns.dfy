/** What holds of a sender over whole runs, in which the application adds nothing to its stream once the FIN is
    out and acknowledgments come only after the SYN is out. */
module SenderRuns {
  import opened Machine
  import opened Segments
  import opened TcpSender
  import opened SenderInvariant
  import opened SenderSteps

  datatype Op = Write(data: seq<byte>) | Close | Fill | Ack(ackno: u32, window: u16) | Tick(ms: nat) | Empty

  predicate Enabled(s: Sender, op: Op)
    requires s.stream.Valid()
  {
    (op.Write? ==> MayWrite(s, op.data)) && (op.Ack? ==> s.syn)
  }

  function Apply(s: Sender, op: Op): (s': Sender)
    requires s.stream.Valid()
    ensures s'.stream.Valid()
  {
    match op
    case Write(data) => s.(stream := s.stream.Write(data))
    case Close => s.(stream := s.stream.(ended := true))
    case Fill => s.FillWindow()
    case Ack(ackno, window) => s.AckReceived(ackno, window)
    case Tick(ms) => s.Tick(ms)
    case Empty => s.SendEmptySegment()
  }

  function Run(s: Sender, ops: seq<Op>): (s': Sender)
    requires s.stream.Valid()
    ensures s'.stream.Valid()
  {
    if ops == [] then s else Apply(Run(s, ops[..|ops| - 1]), ops[|ops| - 1])
  }

  ghost predicate Legal(s: Sender, ops: seq<Op>)
    requires s.stream.Valid()
  {
    ops == [] || (Legal(s, ops[..|ops| - 1]) && Enabled(Run(s, ops[..|ops| - 1]), ops[|ops| - 1]))
  }

  lemma ApplyInv(s: Sender, op: Op)
    requires Inv(s) && Enabled(s, op)
    ensures Inv(Apply(s, op))
  {
    match op
    case Write(data) => WriteInv(s, data);
    case Close => CloseInv(s);
    case Fill => FillWindowInv(s);
    case Ack(ackno, window) => AckReceivedInv(s, ackno, window);
    case Tick(ms) => TickInv(s, ms);
    case Empty => SendEmptyInv(s);
  }

  /** Sender safety: tiling, counting, window, timer and queue hold in every reachable state. */
  lemma {:induction false} RunInv(capacity: nat, initialRto: u16, isn: u32, ops: seq<Op>)
    requires Legal(NewSender(capacity, initialRto, isn), ops)
    ensures Inv(Run(NewSender(capacity, initialRto, isn), ops))
  {
    var s := NewSender(capacity, initialRto, isn);
    if ops == [] {
      NewInv(capacity, initialRto, isn);
    } else {
      RunInv(capacity, initialRto, isn, ops[..|ops| - 1]);
      ApplyInv(Run(s, ops[..|ops| - 1]), ops[|ops| - 1]);
    }
  }

  /** The number of segments with a FIN. */
  function FinCount(segs: seq<TcpSegment>): nat
  {
    if segs == [] then 0
    else FinCount(segs[..|segs| - 1]) + (if segs[|segs| - 1].header.fin then 1 else 0)
  }

  function One(b: bool): nat { if b then 1 else 0 }

  lemma FinCountSnoc(segs: seq<TcpSegment>, seg: TcpSegment)
    ensures FinCount(segs + [seg]) == FinCount(segs) + One(seg.header.fin)
  {
    assert (segs + [seg])[..|segs|] == segs;
  }

  lemma SendFins(s: Sender, segment: TcpSegment)
    ensures FinCount(s.SendSegment(segment).segmentsOut) == FinCount(s.segmentsOut) + One(segment.header.fin)
  {
    FinCountSnoc(s.segmentsOut, Numbered(s, segment));
  }

  lemma OneSegmentFins(s: Sender, segment: TcpSegment)
    requires s.stream.Valid() && !s.finSent && segment.header == DEFAULT_HEADER
    requires s.stream.Size() > 0 && s.recvWdnSz > 0
    ensures var t := s.FillOne(segment).0; FinCount(t.segmentsOut) == FinCount(s.segmentsOut) + One(t.finSent)
  {
    FillOneIs(s, segment);
    SendFins(Taken(s), TakenSegment(s));
  }

  lemma {:induction false} LoopFins(s: Sender, segment: TcpSegment)
    requires Inv(s) && s.syn && (s.finSent || segment.header == DEFAULT_HEADER)
    ensures var s' := s.FillLoop(segment).0;
            FinCount(s'.segmentsOut) + One(s.finSent) == FinCount(s.segmentsOut) + One(s'.finSent)
    decreases s.stream.Size()
  {
    if s.stream.Size() > 0 && s.recvWdnSz > 0 {
      var (t, seg) := s.FillOne(segment);
      FillOneInv(s, segment);
      OneSegmentFins(s, segment);
      LoopFins(t, seg);
    }
  }

  /** Filling the window sends a FIN exactly when it sets the flag that one has been sent. */
  lemma FillFins(s: Sender)
    requires Inv(s)
    ensures var s' := s.FillWindow();
            FinCount(s'.segmentsOut) + One(s.finSent) == FinCount(s.segmentsOut) + One(s'.finSent)
  {
    if !s.syn {
      SendFins(s.(syn := true), EMPTY_SEGMENT.(header := DEFAULT_HEADER.(syn := true)));
    } else {
      var (t, seg) := s.FillLoop(EMPTY_SEGMENT);
      FillLoopInv(s, EMPTY_SEGMENT);
      LoopFins(s, EMPTY_SEGMENT);
      if !t.finSent && t.stream.Eof() && t.recvWdnSz > 0 {
        SendFins(t.(recvWdnSz := t.recvWdnSz - 1), seg.(header := seg.header.(fin := true)));
      }
    }
  }

  /** The FINs a run sends for the first time, as opposed to those that ticks send again. */
  function NewFins(s: Sender, ops: seq<Op>): int
    requires s.stream.Valid()
  {
    if ops == [] then 0 else
    var t, op := Run(s, ops[..|ops| - 1]), ops[|ops| - 1];
    NewFins(s, ops[..|ops| - 1]) +
    (if op.Tick? then 0 else FinCount(Apply(t, op).segmentsOut) - FinCount(t.segmentsOut))
  }

  lemma ApplyFins(s: Sender, op: Op)
    requires Inv(s) && Enabled(s, op) && !op.Tick?
    ensures var s' := Apply(s, op);
            FinCount(s'.segmentsOut) + One(s.finSent) == FinCount(s.segmentsOut) + One(s'.finSent)
  {
    match op
    case Write(_) =>
    case Close =>
    case Fill => FillFins(s);
    case Ack(ackno, window) => AckFins(s, ackno, window);
    case Tick(_) =>
    case Empty => FinCountSnoc(s.segmentsOut, s.SendEmptySegment().segmentsOut[|s.segmentsOut|]);
  }

  lemma AckFins(s: Sender, ackno: u32, window: u16)
    requires Inv(s) && s.syn
    ensures var s' := s.AckReceived(ackno, window);
            FinCount(s'.segmentsOut) + One(s.finSent) == FinCount(s.segmentsOut) + One(s'.finSent)
  {
    AckReceivedIs(s, ackno, window);
    var abs := AckAbs(s, ackno);
    if abs <= s.nextSeqno <= abs + window {
      AcknowledgeInv(s, abs, window);
      FillFins(s.Acknowledge(abs, window));
    }
  }

  /** FIN discipline: a run sends at most one new FIN. */
  lemma {:induction false} OneFin(capacity: nat, initialRto: u16, isn: u32, ops: seq<Op>)
    requires Legal(NewSender(capacity, initialRto, isn), ops)
    ensures var s := NewSender(capacity, initialRto, isn);
            NewFins(s, ops) == One(Run(s, ops).finSent)
  {
    var s := NewSender(capacity, initialRto, isn);
    if ops != [] {
      var before, op := ops[..|ops| - 1], ops[|ops| - 1];
      OneFin(capacity, initialRto, isn, before);
      RunInv(capacity, initialRto, isn, before);
      if !op.Tick? { ApplyFins(Run(s, before), op); }
    }
  }

  /** Every FIN ever queued takes the last sequence number of the run, after the last byte of the stream. */
  lemma FinIsLast(s: Sender, seg: TcpSegment)
    requires Inv(s) && seg in s.segmentsOut && seg.header.fin
    ensures s.finSent && s.stream.ended && s.nextSeqno == |s.stream.history| + 2
    ensures exists from: nat :: SentAt(seg, from, s.isn, s.stream.history, true) && from + seg.Length() == s.nextSeqno
  {
    var from :| 0 <= from && from + seg.Length() <= s.nextSeqno &&
                SentAt(seg, from, s.isn, s.stream.history, s.finSent);
    assert SentAt(seg, from, s.isn, s.stream.history, true);
  }
}
