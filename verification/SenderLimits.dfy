/** Exactly when the sender's promises hold: what an acknowledgment does to the window and the timer, before
    the SYN as well as after it, and what a write after the FIN does to the stream. */
module SenderLimits {
  import opened Machine
  import opened WrappingIntegers
  import opened Segments
  import opened TcpSender
  import opened SenderInvariant
  import opened SenderSteps

  /** Filling the window leaves a running timer alone and starts a stopped one afresh; what the last
      acknowledgment said stays. */
  ghost predicate TimerKept(s: Sender, s': Sender)
  {
    && s'.initialRto == s.initialRto && s'.wdnSz == s.wdnSz
    && s'.absAckno == s.absAckno && s'.maxAbsSeqno == s.maxAbsSeqno
    && (s'.timer == s.timer || (!s.timer.on && s'.timer == Timer(true, s.initialRto, 0, s.timer.retransmissions)))
  }

  lemma {:induction false} LoopKeepsTimer(s: Sender, segment: TcpSegment)
    requires s.stream.Valid()
    ensures TimerKept(s, s.FillLoop(segment).0)
    decreases s.stream.Size()
  {
    if s.stream.Size() > 0 && s.recvWdnSz > 0 {
      var (t, seg) := s.FillOne(segment);
      LoopKeepsTimer(t, seg);
    }
  }

  lemma FillKeepsTimer(s: Sender)
    requires s.stream.Valid()
    ensures TimerKept(s, s.FillWindow())
  {
    if s.syn { LoopKeepsTimer(s, EMPTY_SEGMENT); }
  }

  /** Section 5 of RFC 6298: while segments are outstanding, an acknowledgment of nothing new leaves the timer and
      its backoff as they are; one that moves forward starts it afresh with the initial timeout, unless nothing
      is left to wait for. */
  lemma AckTimer(s: Sender, abs: u64, window: u16)
    requires Inv(s) && s.outstanding != [] && abs <= s.nextSeqno <= abs + window
    ensures var s' := s.AckAt(abs, window);
            && (abs <= s.maxAbsSeqno ==> s'.timer == s.timer)
            && (abs > s.maxAbsSeqno ==> s'.timer.retransmissions == 0)
            && (abs > s.maxAbsSeqno && s'.timer.on ==> s'.timer == Timer(true, s.initialRto, 0, 0))
  {
    ForgetTiles(s.Noted(abs, window), abs);
    FillKeepsTimer(s.Acknowledge(abs, window));
  }

  /** An acknowledgment taken leaves exactly its own window usable, and no more, if and only if the SYN is out: an
      acknowledgment before the SYN lets the sender go one past the window, as the SYN is not charged to it. */
  lemma AckWindowIff(s: Sender, abs: u64, window: u16)
    requires Inv(s) && abs <= s.nextSeqno <= abs + window
    ensures var s' := s.AckAt(abs, window);
            && (s'.nextSeqno + s'.recvWdnSz == abs + Max(window, 1) <==> s.syn)
            && (!s.syn ==> s'.nextSeqno + s'.recvWdnSz == abs + Max(window, 1) + 1)
  {
    AcknowledgeWindow(s, abs, window);
    if s.syn {
      AcknowledgeInv(s, abs, window);
      FillWindowInv(s.Acknowledge(abs, window));
    }
  }

  /** A write keeps the invariant if and only if it comes before the FIN or adds nothing. */
  lemma WriteInvIff(s: Sender, data: seq<byte>)
    requires Inv(s)
    ensures Inv(s.(stream := s.stream.Write(data))) <==> !s.finSent || Min(|data|, s.stream.Room()) == 0
  {
    if MayWrite(s, data) { WriteInv(s, data); }
  }

  lemma {:induction false} LoopAddsSegments(s: Sender, segment: TcpSegment)
    requires s.stream.Valid()
    ensures s.segmentsOut <= s.FillLoop(segment).0.segmentsOut
    decreases s.stream.Size()
  {
    if s.stream.Size() > 0 && s.recvWdnSz > 0 {
      var (t, seg) := s.FillOne(segment);
      LoopAddsSegments(t, seg);
    }
  }

  lemma FillAddsSegments(s: Sender)
    requires s.stream.Valid()
    ensures s.segmentsOut <= s.FillWindow().segmentsOut
  {
    if s.syn { LoopAddsSegments(s, EMPTY_SEGMENT); }
  }

  /** Bytes written after the FIN are sent one sequence number too high: the FIN has taken the number of the
      first of them. */
  lemma LateWriteMisplaced(s: Sender, data: seq<byte>)
    requires Inv(s) && s.finSent && s.recvWdnSz > 0 && Min(|data|, s.stream.Room()) > 0
    ensures var s', n := s.(stream := s.stream.Write(data)).FillWindow(), |s.segmentsOut|;
            && |s'.segmentsOut| > n && s'.segmentsOut[n].payload != []
            && s'.segmentsOut[n].payload[0] == data[0]
            && s'.segmentsOut[n].header.seqno == Wrap(|s.stream.history| + 2, s.isn)
  {
    var w := s.(stream := s.stream.Write(data));
    var (t, seg) := w.FillOne(EMPTY_SEGMENT);
    assert w.stream.history[w.stream.read] == data[0];
    assert t.segmentsOut[|s.segmentsOut|].header.seqno == Wrap(w.nextSeqno, w.isn);
    LoopAddsSegments(t, seg);
  }
}
