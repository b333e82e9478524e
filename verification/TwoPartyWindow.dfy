/** The sender's window against the receiver's: what the sender has sent lies in the window the receiver accepts,
    but for one byte sent to probe a closed window; and so a FIN that comes with data is always kept. */
module TwoPartyWindow {
  import opened Machine
  import opened WrappingIntegers
  import opened Segments
  import opened Assembly
  import opened TcpSender
  import opened TcpReceiver
  import opened SenderInvariant
  import opened SenderSteps
  import opened SenderProgress
  import opened SenderLimits
  import opened SenderCut
  import opened TwoParty
  import opened TwoPartySafety
  import AssemblyRuns

  /** The acknowledgment offers no more than the receiver accepts. */
  ghost predicate AckFits(a: AckMessage, isn: u32, r: Receiver)
  {
    exists v: nat :: v <= Frontier(r) && a.ackno == Wrap(v, isn) && v + a.window <= r.asm.Edge() + 1
  }

  /** No byte is sent more than one past the receiver's window, and none past it once the FIN is out; until then
      every acknowledgment offers no more than the window. */
  ghost predicate WindowInv(s: Sender, r: Receiver, acks: set<AckMessage>)
  {
    && s.stream.read <= r.asm.Edge() + 1
    && (s.finSent ==> s.stream.read <= r.asm.Edge())
    && (!s.finSent ==> s.absAckno + s.wdnSz <= r.asm.Edge() + 1 && forall a <- acks :: AckFits(a, s.isn, r))
  }

  /** A FIN with data fits into the window, and the last byte does not arrive before it. */
  ghost predicate FinInWindow(s: Sender, r: Receiver, piggy: bool)
  {
    piggy ==> 0 < |s.stream.history| < r.asm.Edge() && (!r.end ==> !AssemblyRuns.Has(r.asm, |s.stream.history| - 1))
  }

  ghost predicate LogCut(s: Sender, log: seq<TcpSegment>, r: Receiver)
  {
    exists piggy :: CutInv(s, log, piggy) && FinInWindow(s, r, piggy)
  }

  /** `log` is what has been sent besides what waits in the sender's queue. */
  ghost predicate LogInv(s: Sender, log: seq<TcpSegment>, r: Receiver, acks: set<AckMessage>)
  {
    s.nextSeqno < TWO31 ==> WindowInv(s, r, acks) && LogCut(s, log, r)
  }

  /** No byte is sent more than one past what the receiver accepts, and none past it at all unless the last window the
      sender heard of was closed and the FIN is not out. */
  ghost predicate InsideWindow(s: Sender, r: Receiver)
  {
    && s.stream.read <= r.asm.Edge() + 1
    && (s.stream.read > r.asm.Edge() ==> !s.finSent && s.wdnSz == 0)
  }

  // Sender steps

  lemma FillBounds(s: Sender, r: Receiver, acks: set<AckMessage>)
    requires Inv(s) && WindowInv(s, r, acks)
    ensures var s' := s.FillWindow();
            && WindowInv(s', r, acks)
            && (!s.finSent && s.recvWdnSz >= 2 ==> s'.nextSeqno <= r.asm.Edge() + 1)
  {
    FillWindowInv(s);
    FillProgress(s);
    FillKeepsTimer(s);
  }

  lemma FillLog(s: Sender, log: seq<TcpSegment>, r: Receiver, acks: set<AckMessage>)
    requires Inv(s) && ReceiverOk(r, s) && LogInv(s, log, r, acks) && forall seg <- log :: Sendable(seg, s)
    ensures LogInv(s.FillWindow(), log, r, acks)
  {
    var s' := s.FillWindow();
    FillProgress(s);
    if s'.nextSeqno < TWO31 {
      FillBounds(s, r, acks);
      FillWindowInv(s);
      var piggy :| CutInv(s, log, piggy) && FinInWindow(s, r, piggy);
      var piggy' := FillCut(s, log, piggy);
      assert FinInWindow(s', r, piggy');
    }
  }

  /** Before the FIN is out nothing has ended at the receiver. */
  lemma FrontierBeforeFin(s: Sender, r: Receiver)
    requires Counting(s) && ReceiverOk(r, s) && !s.finSent
    ensures Frontier(r) <= s.nextSeqno && (r.syn ==> Frontier(r) == r.asm.Written() + 1 == r.expAck)
  {
  }

  /** An acknowledgment that fits moves the sender's window to one that fits. */
  lemma AcknowledgeLog(s: Sender, abs: u64, window: u16, log: seq<TcpSegment>, r: Receiver, acks: set<AckMessage>)
    requires Inv(s) && abs <= s.nextSeqno <= abs + window && s.nextSeqno < TWO31 && LogInv(s, log, r, acks)
    requires !s.finSent ==> abs + window <= r.asm.Edge() + 1
    ensures LogInv(s.Acknowledge(abs, window), log, r, acks)
  {
    var piggy :| CutInv(s, log, piggy) && FinInWindow(s, r, piggy);
    AcknowledgeCut(s, abs, window, log, piggy);
    assert FinInWindow(s.Acknowledge(abs, window), r, piggy);
  }

  lemma ClosedLog(s: Sender, log: seq<TcpSegment>, r: Receiver, acks: set<AckMessage>)
    requires LogInv(s, log, r, acks)
    ensures LogInv(s.(recvWdnSz := 0), log, r, acks)
  {
    if s.nextSeqno < TWO31 {
      var piggy :| CutInv(s, log, piggy) && FinInWindow(s, r, piggy);
      SameLog(s, s.(recvWdnSz := 0), log, log, r, acks, piggy);
    }
  }

  lemma RefillLog(s: Sender, abs: u64, window: u16, log: seq<TcpSegment>, r: Receiver, acks: set<AckMessage>)
    requires Inv(s) && s.syn && s.nextSeqno < TWO31 && ReceiverOk(r, s) && LogInv(s, log, r, acks)
    requires forall seg <- log :: Sendable(seg, s)
    requires abs <= s.nextSeqno <= abs + window && (!s.finSent ==> abs + window <= r.asm.Edge() + 1)
    ensures LogInv(s.Acknowledge(abs, window).FillWindow(), log, r, acks)
  {
    var t := s.Acknowledge(abs, window);
    AcknowledgeInv(s, abs, window);
    AcknowledgeLog(s, abs, window, log, r, acks);
    ReceiverOkGrows(r, s, t);
    forall seg <- log ensures Sendable(seg, t) { SendableGrow(seg, s, t); }
    FillLog(t, log, r, acks);
  }

  lemma AckAtLog(s: Sender, abs: u64, window: u16, log: seq<TcpSegment>, r: Receiver, acks: set<AckMessage>)
    requires Inv(s) && s.syn && s.nextSeqno < TWO31 && ReceiverOk(r, s) && LogInv(s, log, r, acks)
    requires forall seg <- log :: Sendable(seg, s)
    requires !s.finSent ==> abs + window <= r.asm.Edge() + 1
    ensures LogInv(s.AckAt(abs, window), log, r, acks)
  {
    if abs <= s.nextSeqno {
      if abs + window < s.nextSeqno {
        ClosedLog(s, log, r, acks);
      } else {
        RefillLog(s, abs, window, log, r, acks);
      }
    }
  }

  /** Any acknowledgment under way. */
  lemma AckLog(s: Sender, a: AckMessage, log: seq<TcpSegment>, r: Receiver, acks: set<AckMessage>)
    requires Inv(s) && s.syn && s.nextSeqno < TWO31 && ReceiverOk(r, s) && LogInv(s, log, r, acks) && a in acks
    requires forall seg <- log :: Sendable(seg, s)
    ensures LogInv(s.AckReceived(a.ackno, a.window), log, r, acks)
  {
    AckReceivedIs(s, a.ackno, a.window);
    if !s.finSent {
      FrontierBeforeFin(s, r);
      assert AckFits(a, s.isn, r);
      var v: nat :| v <= Frontier(r) && a.ackno == Wrap(v, s.isn) && v + a.window <= r.asm.Edge() + 1;
      AckUnwraps(s, v);
    }
    AckAtLog(s, AckAbs(s, a.ackno), a.window, log, r, acks);
  }

  /** Whatever leaves the window of the sender, the bytes taken and the cut alone. */
  lemma SameLog(s: Sender, s': Sender, log: seq<TcpSegment>, log': seq<TcpSegment>, r: Receiver, acks: set<AckMessage>,
                piggy: bool)
    requires s.nextSeqno < TWO31 ==> WindowInv(s, r, acks) && FinInWindow(s, r, piggy)
    requires s.nextSeqno < TWO31 ==> CutInv(s', log', piggy)
    requires s'.nextSeqno == s.nextSeqno && s'.finSent == s.finSent && s'.isn == s.isn
    requires s'.stream.read == s.stream.read && (s.finSent ==> s'.stream.history == s.stream.history)
    requires s'.absAckno == s.absAckno && s'.wdnSz == s.wdnSz && (piggy ==> s.finSent)
    ensures LogInv(s', log', r, acks)
  {
    if s.nextSeqno < TWO31 { assert CutInv(s', log', piggy) && FinInWindow(s', r, piggy); }
  }

  lemma WriteLog(s: Sender, data: seq<byte>, log: seq<TcpSegment>, r: Receiver, acks: set<AckMessage>)
    requires Inv(s) && MayWrite(s, data) && LogInv(s, log, r, acks)
    ensures LogInv(s.(stream := s.stream.Write(data)), log, r, acks)
  {
    if s.nextSeqno < TWO31 {
      var piggy :| CutInv(s, log, piggy) && FinInWindow(s, r, piggy);
      WriteCut(s, data, log, piggy);
      WriteInv(s, data);
      SameLog(s, s.(stream := s.stream.Write(data)), log, log, r, acks, piggy);
    }
  }

  lemma CloseLog(s: Sender, log: seq<TcpSegment>, r: Receiver, acks: set<AckMessage>)
    requires LogInv(s, log, r, acks)
    ensures LogInv(s.(stream := s.stream.(ended := true)), log, r, acks)
  {
    if s.nextSeqno < TWO31 {
      var piggy :| CutInv(s, log, piggy) && FinInWindow(s, r, piggy);
      SameLog(s, s.(stream := s.stream.(ended := true)), log, log, r, acks, piggy);
    }
  }

  lemma TickLog(s: Sender, ms: nat, log: seq<TcpSegment>, r: Receiver, acks: set<AckMessage>)
    requires s.stream.Valid() && LogInv(s, log, r, acks)
    ensures LogInv(s.Tick(ms), log, r, acks)
  {
    if s.nextSeqno < TWO31 {
      var piggy :| CutInv(s, log, piggy) && FinInWindow(s, r, piggy);
      TickCut(s, ms, log, piggy);
      SameLog(s, s.Tick(ms), log, log, r, acks, piggy);
    }
  }

  lemma EmptyLog(s: Sender, log: seq<TcpSegment>, r: Receiver, acks: set<AckMessage>)
    requires LogInv(s, log, r, acks)
    ensures LogInv(s.SendEmptySegment(), log, r, acks)
  {
    if s.nextSeqno < TWO31 {
      var piggy :| CutInv(s, log, piggy) && FinInWindow(s, r, piggy);
      SameLog(s, s.SendEmptySegment(), log, log, r, acks, piggy);
    }
  }

  // Receiver steps

  /** What the receiver has only grows, the edge does not move left, and the last byte does not come without the
      FIN. */
  lemma ReceiverLog(s: Sender, log: seq<TcpSegment>, r: Receiver, r': Receiver, acks: set<AckMessage>, piggy: bool)
    requires s.nextSeqno < TWO31 && WindowInv(s, r, acks) && CutInv(s, log, piggy) && FinInWindow(s, r, piggy)
    requires r.asm.Edge() <= r'.asm.Edge() && (!s.finSent ==> Frontier(r) <= Frontier(r'))
    requires piggy && !r'.end ==> !r.end && !AssemblyRuns.Has(r'.asm, |s.stream.history| - 1)
    ensures LogInv(s, log, r', acks)
  {
    assert FinInWindow(s, r', piggy);
    if !s.finSent {
      forall a <- acks ensures AckFits(a, s.isn, r') {
        assert AckFits(a, s.isn, r);
        var v: nat :| v <= Frontier(r) && a.ackno == Wrap(v, s.isn) && v + a.window <= r.asm.Edge() + 1;
        assert v <= Frontier(r') && v + a.window <= r'.asm.Edge() + 1;
      }
    }
  }

  /** A segment without the FIN does not bring the last byte of a stream whose FIN goes with data. */
  lemma PushNotLast(a: Assembly, data: seq<byte>, index: nat, eof: bool, n: nat)
    requires a.Valid() && !AssemblyRuns.Has(a, n) && (data != [] ==> index + |data| <= n)
    ensures !AssemblyRuns.Has(a.Push(data, index, eof), n)
  {
    AssemblyRuns.PushHas(a, data, index, eof, n);
  }

  lemma EndsBeforeLast(s: Sender, seg: TcpSegment, from: nat)
    requires Counting(s) && s.stream.Valid() && from + seg.Length() <= s.nextSeqno < TWO31
    requires SentAt(seg, from, s.isn, s.stream.history, s.finSent) && !HoldsLast(seg, s)
    ensures seg.payload != [] ==> PushIndex(seg, from) + |seg.payload| < |s.stream.history|
  {
    PayloadFits(s, seg, from);
  }

  lemma AcceptNotLast(r: Receiver, s: Sender, seg: TcpSegment, from: nat)
    requires r.Valid() && Counting(s) && s.stream.Valid() && from + seg.Length() <= s.nextSeqno < TWO31
    requires SentAt(seg, from, s.isn, s.stream.history, s.finSent) && !HoldsLast(seg, s)
    requires |s.stream.history| > 0 && !AssemblyRuns.Has(r.asm, |s.stream.history| - 1)
    ensures !AssemblyRuns.Has(r.Accept(seg, s.isn, from).asm, |s.stream.history| - 1)
  {
    EndsBeforeLast(s, seg, from);
    AcceptFields(r, seg, s.isn, from);
    PushNotLast(r.asm, seg.payload, PushIndex(seg, from), r.end || seg.header.fin, |s.stream.history| - 1);
  }

  lemma AcceptEdge(r: Receiver, seg: TcpSegment, isn: u32, from: nat)
    requires r.Valid() && from < TWO31
    ensures var r' := r.Accept(seg, isn, from);
            r'.asm.Edge() == r.asm.Edge() && r.asm.Written() <= r'.asm.Written()
  {
    AcceptFields(r, seg, isn, from);
    AssemblyRuns.PushKeepsEdge(r.asm, seg.payload, PushIndex(seg, from), r.end || seg.header.fin);
  }

  lemma AcceptLog(s: Sender, log: seq<TcpSegment>, r: Receiver, acks: set<AckMessage>, seg: TcpSegment, from: nat)
    requires Inv(s) && ReceiverOk(r, s) && LogInv(s, log, r, acks) && (seg in log || seg in s.segmentsOut)
    requires from + seg.Length() <= s.nextSeqno < TWO31 && seg.header.syn != r.syn
    requires SentAt(seg, from, s.isn, s.stream.history, s.finSent)
    ensures LogInv(s, log, r.Accept(seg, s.isn, from), acks)
  {
    var piggy :| CutInv(s, log, piggy) && FinInWindow(s, r, piggy);
    var r' := r.Accept(seg, s.isn, from);
    AcceptFields(r, seg, s.isn, from);
    AcceptEdge(r, seg, s.isn, from);
    assert SegCut(seg, s, piggy);
    if piggy && !r'.end { AcceptNotLast(r, s, seg, from); }
    ReceiverLog(s, log, r, r', acks, piggy);
  }

  lemma DeliverLog(s: Sender, log: seq<TcpSegment>, r: Receiver, acks: set<AckMessage>, seg: TcpSegment)
    requires Inv(s) && ReceiverOk(r, s) && LogInv(s, log, r, acks) && (seg in log || seg in s.segmentsOut)
    requires Sendable(seg, s) && s.nextSeqno < TWO31
    ensures LogInv(s, log, r.SegmentReceived(seg), acks)
  {
    var from: nat :| from + seg.Length() <= s.nextSeqno && SentAt(seg, from, s.isn, s.stream.history, s.finSent);
    ReceivedIs(r, s, seg, from);
    if seg.header.syn != r.syn { AcceptLog(s, log, r, acks, seg, from); }
  }

  lemma ReadLog(s: Sender, log: seq<TcpSegment>, r: Receiver, acks: set<AckMessage>, n: nat)
    requires r.Valid() && LogInv(s, log, r, acks)
    ensures LogInv(s, log, r.Pop(n), acks)
  {
    if s.nextSeqno < TWO31 {
      var piggy :| CutInv(s, log, piggy) && FinInWindow(s, r, piggy);
      ReceiverLog(s, log, r, r.Pop(n), acks, piggy);
    }
  }

  lemma CurrentFits(s: Sender, r: Receiver, a: AckMessage)
    requires Inv(s) && ReceiverOk(r, s) && r.syn && !s.finSent && a.ackno == r.ack && a.window <= r.WindowSize()
    ensures AckFits(a, s.isn, r)
  {
    FrontierBeforeFin(s, r);
    assert Frontier(r) + a.window <= r.asm.Edge() + 1 && a.ackno == Wrap(Frontier(r), s.isn);
  }

  /** Announcing the current acknowledgment number and window is safe. */
  lemma AcksLog(s: Sender, log: seq<TcpSegment>, r: Receiver, acks: set<AckMessage>, acks': set<AckMessage>)
    requires Inv(s) && ReceiverOk(r, s) && LogInv(s, log, r, acks)
    requires forall a <- acks' :: a in acks || (r.syn && a.ackno == r.ack && a.window <= r.WindowSize())
    ensures LogInv(s, log, r, acks')
  {
    if s.nextSeqno < TWO31 && !s.finSent {
      forall a <- acks' ensures AckFits(a, s.isn, r) { if a !in acks { CurrentFits(s, r, a); } }
    }
  }

  // What it is for

  /** A FIN that comes with data is kept, whatever the channel does: only a bare FIN can overtake. */
  lemma FinsFit(s: Sender, log: seq<TcpSegment>, r: Receiver, acks: set<AckMessage>, seg: TcpSegment)
    requires Inv(s) && ReceiverOk(r, s) && LogInv(s, log, r, acks) && (seg in log || seg in s.segmentsOut)
    requires Sendable(seg, s) && s.nextSeqno < TWO31 && (seg.header.fin ==> KeepsFin(r, seg))
    ensures FinFits(r, seg)
  {
    var from: nat :| from + seg.Length() <= s.nextSeqno && SentAt(seg, from, s.isn, s.stream.history, s.finSent);
    SegmentUnwraps(r, s, seg, from);
    var piggy :| CutInv(s, log, piggy) && FinInWindow(s, r, piggy);
    assert SegCut(seg, s, piggy);
  }
}
