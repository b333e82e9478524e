/** How the end of the stream is cut into segments: if the FIN goes out with data, then the last byte never goes
    out without the FIN. */
module SenderCut {
  import opened Machine
  import opened WrappingIntegers
  import opened Segments
  import opened TcpSender
  import opened SenderInvariant
  import opened SenderSteps
  import opened SenderProgress

  /** The segment carries the last byte of the stream so far. */
  predicate HoldsLast(seg: TcpSegment, s: Sender)
  {
    && 0 < |seg.payload| <= |s.stream.history|
    && seg.header.seqno == Wrap(|s.stream.history| + 1 - |seg.payload|, s.isn)
  }

  /** `piggy` says that the FIN was sent with data. */
  predicate SegCut(seg: TcpSegment, s: Sender, piggy: bool)
  {
    && (seg.header.fin && seg.payload != [] ==> piggy)
    && (piggy && HoldsLast(seg, s) ==> seg.header.fin)
  }

  /** All that waits in the queue, is stored for retransmission, or has gone out. */
  ghost predicate CutInv(s: Sender, log: seq<TcpSegment>, piggy: bool)
  {
    && (piggy ==> s.finSent && |s.stream.history| > 0)
    && (forall seg <- s.segmentsOut :: SegCut(seg, s, piggy))
    && (forall o <- s.outstanding :: SegCut(o.seg, s, piggy))
    && (forall seg <- log :: SegCut(seg, s, piggy))
  }

  lemma WrapInjective(x: nat, y: nat, isn: u32)
    requires x < TWO31 && y < TWO31 && Wrap(x, isn) == Wrap(y, isn)
    ensures x == y
  {
    UnwrapWrap(x, isn, 0);
    UnwrapWrap(y, isn, 0);
  }

  /** What may be sent before the last byte is taken from the stream does not carry it. */
  lemma NotLastYet(seg: TcpSegment, s: Sender)
    requires Sendable(seg, s) && Counting(s) && !s.finSent && s.stream.read < |s.stream.history| < TWO31 - 1
    ensures !HoldsLast(seg, s)
  {
    var from :| 0 <= from && from + seg.Length() <= s.nextSeqno &&
                SentAt(seg, from, s.isn, s.stream.history, s.finSent);
    if HoldsLast(seg, s) { WrapInjective(from, |s.stream.history| + 1 - |seg.payload|, s.isn); }
  }

  /** The stored segments may be sent. */
  lemma {:induction false} StoredSendable(m: seq<Outstanding>, from: nat, s: Sender, o: Outstanding)
    requires Tiles(m, from, s.nextSeqno, s.isn, s.stream.history, s.finSent) && o in m
    ensures Sendable(o.seg, s)
  {
    TilesOrdered(m, from, s.nextSeqno, s.isn, s.stream.history, s.finSent);
    if o == m[0] {
      assert SentAt(o.seg, from, s.isn, s.stream.history, s.finSent);
    } else {
      StoredSendable(m[1..], m[0].end, s, o);
    }
  }

  /** Sending adds one segment to the queue and to the store. */
  lemma SendAdds(s: Sender, segment: TcpSegment)
    requires Tiling(s) && Plain(segment) && segment.Length() > 0
    requires SentAt(Numbered(s, segment), s.nextSeqno, s.isn, s.stream.history, s.finSent)
    ensures var s', seg := s.SendSegment(segment), Numbered(s, segment);
            && s'.segmentsOut == s.segmentsOut + [seg]
            && s'.outstanding == s.outstanding + [Outstanding(s.nextSeqno + seg.Length(), seg)]
            && s'.stream == s.stream && s'.isn == s.isn && s'.finSent == s.finSent
  {
    TilesAppend(s.outstanding, Una(s), s.nextSeqno, s.isn, s.stream.history, s.finSent, Numbered(s, segment));
  }

  lemma SendCut(s: Sender, segment: TcpSegment, log: seq<TcpSegment>, piggy: bool)
    requires Tiling(s) && Plain(segment) && segment.Length() > 0 && CutInv(s, log, piggy)
    requires SentAt(Numbered(s, segment), s.nextSeqno, s.isn, s.stream.history, s.finSent)
    requires SegCut(Numbered(s, segment), s, piggy)
    ensures CutInv(s.SendSegment(segment), log, piggy)
  {
    SendAdds(s, segment);
  }

  /** Taking the last bytes with the FIN: nothing sent before has the last byte. */
  lemma TakenCut(s: Sender, log: seq<TcpSegment>, piggy: bool)
    requires Inv(s) && s.syn && !s.finSent && CutInv(s, log, piggy)
    requires s.stream.Size() > 0 && s.recvWdnSz > 0 && (TakesFin(s) ==> |s.stream.history| < TWO31 - 1)
    requires forall seg <- log :: Sendable(seg, s)
    ensures CutInv(Taken(s), log, TakesFin(s))
  {
    if TakesFin(s) {
      var t := Taken(s);
      forall seg <- s.segmentsOut ensures SegCut(seg, t, true) { NotLastYet(seg, s); }
      forall seg <- log ensures SegCut(seg, t, true) { NotLastYet(seg, s); }
      forall o <- s.outstanding ensures SegCut(o.seg, t, true) {
        StoredSendable(s.outstanding, Una(s), s, o);
        NotLastYet(o.seg, s);
      }
    }
  }

  lemma OneCut(s: Sender, segment: TcpSegment, log: seq<TcpSegment>, piggy: bool)
    requires Inv(s) && s.syn && !s.finSent && segment.header == DEFAULT_HEADER && CutInv(s, log, piggy)
    requires s.stream.Size() > 0 && s.recvWdnSz > 0 && s.FillOne(segment).0.nextSeqno < TWO31
    requires forall seg <- log :: Sendable(seg, s)
    ensures CutInv(s.FillOne(segment).0, log, TakesFin(s))
  {
    FillOneIs(s, segment);
    TakenSound(s);
    TakenSentAt(s);
    TakenCut(s, log, piggy);
    SendCut(Taken(s), TakenSegment(s), log, TakesFin(s));
  }

  /** What the FIN with data needs of the window. */
  ghost predicate CutBy(s: Sender, piggy: bool, piggy': bool)
  {
    (piggy ==> piggy') && (piggy' && !piggy ==> !s.finSent && s.recvWdnSz >= 2 && s.stream.read < |s.stream.history|)
  }

  lemma {:induction false} LoopCut(s: Sender, segment: TcpSegment, log: seq<TcpSegment>, piggy: bool)
    returns (piggy': bool)
    requires Inv(s) && s.syn && (s.finSent || segment.header == DEFAULT_HEADER) && CutInv(s, log, piggy)
    requires s.FillLoop(segment).0.nextSeqno < TWO31 && forall seg <- log :: Sendable(seg, s)
    ensures CutInv(s.FillLoop(segment).0, log, piggy') && CutBy(s, piggy, piggy')
    decreases s.stream.Size()
  {
    if s.stream.Size() > 0 && s.recvWdnSz > 0 {
      var (t, seg) := s.FillOne(segment);
      FillOneInv(s, segment);
      FillOneProgress(s, segment);
      FillLoopProgress(t, seg);
      OneCut(s, segment, log, piggy);
      forall seg <- log ensures Sendable(seg, t) { SendableGrow(seg, s, t); }
      piggy' := LoopCut(t, seg, log, TakesFin(s));
    } else {
      piggy' := piggy;
    }
  }

  lemma FillCut(s: Sender, log: seq<TcpSegment>, piggy: bool) returns (piggy': bool)
    requires Inv(s) && CutInv(s, log, piggy) && s.FillWindow().nextSeqno < TWO31
    requires forall seg <- log :: Sendable(seg, s)
    ensures CutInv(s.FillWindow(), log, piggy') && CutBy(s, piggy, piggy')
  {
    if !s.syn {
      var segment := EMPTY_SEGMENT.(header := DEFAULT_HEADER.(syn := true));
      SynCut(s, segment, log, piggy);
      piggy' := piggy;
    } else {
      var (t, seg) := s.FillLoop(EMPTY_SEGMENT);
      FillLoopInv(s, EMPTY_SEGMENT);
      piggy' := LoopCut(s, EMPTY_SEGMENT, log, piggy);
      FinCut(t, seg, log, piggy');
    }
  }

  lemma SynCut(s: Sender, segment: TcpSegment, log: seq<TcpSegment>, piggy: bool)
    requires Inv(s) && !s.syn && CutInv(s, log, piggy)
    requires segment == EMPTY_SEGMENT.(header := DEFAULT_HEADER.(syn := true))
    ensures CutInv(s.(syn := true).SendSegment(segment), log, piggy)
  {
    var t := s.(syn := true);
    TilesOrdered(s.outstanding, Una(s), s.nextSeqno, s.isn, s.stream.history, s.finSent);
    SendCut(t, segment, log, piggy);
  }

  /** A FIN that goes out alone carries no byte. */
  lemma FinCut(s: Sender, segment: TcpSegment, log: seq<TcpSegment>, piggy: bool)
    requires Inv(s) && s.syn && (s.finSent || segment.header == DEFAULT_HEADER) && CutInv(s, log, piggy)
    requires !s.finSent && s.stream.Eof() && s.recvWdnSz > 0 ==> segment.payload == []
    ensures CutInv(s.FillFin(segment), log, piggy)
  {
    if !s.finSent && s.stream.Eof() && s.recvWdnSz > 0 {
      var seg := segment.(header := segment.header.(fin := true));
      var t := s.(recvWdnSz := s.recvWdnSz - 1, finSent := true);
      assert t.SendSegment(seg) == s.FillFin(segment);
      TilesGrow(s.outstanding, Una(s), s.nextSeqno, s.isn, s.stream.history, s.finSent, t.stream.history, t.finSent);
      SendCut(t, seg, log, piggy);
    }
  }

  lemma CutShrinks(s: Sender, t: Sender, log: seq<TcpSegment>, piggy: bool)
    requires CutInv(s, log, piggy) && t.segmentsOut == s.segmentsOut && forall o <- t.outstanding :: o in s.outstanding
    requires t.stream == s.stream && t.isn == s.isn && t.finSent == s.finSent
    ensures CutInv(t, log, piggy)
  {
  }

  /** An acknowledgment only removes stored segments before the window is filled again. */
  lemma AcknowledgeCut(s: Sender, abs: u64, window: u16, log: seq<TcpSegment>, piggy: bool)
    requires Tiling(s) && abs <= s.nextSeqno && CutInv(s, log, piggy)
    ensures CutInv(s.Acknowledge(abs, window), log, piggy)
  {
    ForgetTiles(s.Noted(abs, window), abs);
    CutShrinks(s, s.Acknowledge(abs, window), log, piggy);
  }

  lemma WriteCut(s: Sender, data: seq<byte>, log: seq<TcpSegment>, piggy: bool)
    requires Inv(s) && MayWrite(s, data) && CutInv(s, log, piggy)
    ensures CutInv(s.(stream := s.stream.Write(data)), log, piggy)
  {
    WriteInv(s, data);
  }

  lemma TickCut(s: Sender, ms: nat, log: seq<TcpSegment>, piggy: bool)
    requires s.stream.Valid() && CutInv(s, log, piggy)
    ensures CutInv(s.Tick(ms), log, piggy)
  {
    if s.outstanding != [] { assert s.outstanding[0] in s.outstanding; }
  }
}
