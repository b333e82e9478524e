/** What every operation of the sender leaves in place: nothing sent is taken back. */
module SenderProgress {
  import opened Machine
  import opened Segments
  import opened TcpSender
  import opened SenderInvariant
  import opened SenderSteps

  ghost predicate Progress(s: Sender, s': Sender)
  {
    && Extends(s', s)
    && s.stream.read <= s'.stream.read
    && (s.syn ==> s'.syn)
  }

  lemma SendProgress(s: Sender, segment: TcpSegment)
    ensures Progress(s, s.SendSegment(segment)) && Una(s.SendSegment(segment)) == Una(s)
  {
  }

  lemma FillOneProgress(s: Sender, segment: TcpSegment)
    requires s.stream.Valid() && !s.finSent && segment.header == DEFAULT_HEADER
    requires s.stream.Size() > 0 && s.recvWdnSz > 0
    ensures Progress(s, s.FillOne(segment).0) && Una(s.FillOne(segment).0) == Una(s)
  {
    FillOneIs(s, segment);
    SendProgress(Taken(s), TakenSegment(s));
  }

  lemma {:induction false} FillLoopProgress(s: Sender, segment: TcpSegment)
    requires Inv(s) && s.syn && (s.finSent || segment.header == DEFAULT_HEADER)
    ensures Progress(s, s.FillLoop(segment).0) && Una(s.FillLoop(segment).0) == Una(s)
    decreases s.stream.Size()
  {
    if s.stream.Size() > 0 && s.recvWdnSz > 0 {
      var (t, seg) := s.FillOne(segment);
      FillOneInv(s, segment);
      FillOneProgress(s, segment);
      FillLoopProgress(t, seg);
    }
  }

  lemma FillProgress(s: Sender)
    requires Inv(s)
    ensures Progress(s, s.FillWindow()) && Una(s.FillWindow()) == Una(s)
  {
    if !s.syn {
      SendProgress(s.(syn := true), EMPTY_SEGMENT.(header := DEFAULT_HEADER.(syn := true)));
    } else {
      var (t, seg) := s.FillLoop(EMPTY_SEGMENT);
      FillLoopProgress(s, EMPTY_SEGMENT);
      SendProgress(t.(recvWdnSz := Trunc16(t.recvWdnSz - 1)), seg.(header := seg.header.(fin := true)));
    }
  }

  /** An acknowledgment moves the lowest unacknowledged number to itself or not at all. */
  lemma AckProgress(s: Sender, abs: u64, window: u16)
    requires Inv(s) && s.syn
    ensures var s' := s.AckAt(abs, window);
            Progress(s, s') && (Una(s') == Una(s) || (Una(s') == abs && abs <= s.nextSeqno))
  {
    if abs <= s.nextSeqno <= abs + window {
      var t := s.Acknowledge(abs, window);
      ForgetTiles(s.Noted(abs, window), abs);
      AcknowledgeInv(s, abs, window);
      FillProgress(t);
    }
  }
}
