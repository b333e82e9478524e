/** How large the segments are: at most 1452 bytes each, and full except for the last of a call. */
module SegmentSizes {
  import opened Machine
  import opened WrappingIntegers
  import opened Segments
  import opened TcpSender
  import opened SenderInvariant
  import opened SenderRuns

  /** A segment with a header of five words, and a payload that fits one Ethernet frame with it. */
  predicate Small(seg: TcpSegment)
  {
    |seg.payload| <= 1452 && seg.header.doff == 5
  }

  ghost predicate AllSmall(s: Sender)
  {
    && s.stream.Valid() && (forall seg <- s.segmentsOut :: Small(seg))
    && (forall o <- s.outstanding :: Small(o.seg))
  }

  lemma {:induction false} InsertSmall(m: seq<Outstanding>, e: Outstanding)
    requires (forall o <- m :: Small(o.seg)) && Small(e.seg)
    ensures forall o <- Insert(m, e) :: Small(o.seg)
  {
    if m != [] && e.end > m[0].end { InsertSmall(m[1..], e); }
  }

  lemma SendSmall(s: Sender, segment: TcpSegment)
    requires AllSmall(s) && Small(segment)
    ensures AllSmall(s.SendSegment(segment))
  {
    InsertSmall(s.outstanding, Outstanding(s.nextSeqno + segment.Length(), Numbered(s, segment)));
  }

  lemma OneSmall(s: Sender, segment: TcpSegment)
    requires AllSmall(s) && segment.header.doff == 5
    ensures AllSmall(s.FillOne(segment).0) && Small(s.FillOne(segment).1)
  {
    var (t, seg) := s.Take(segment);
    if seg.Length() > 0 { SendSmall(t, seg); }
  }

  lemma {:induction false} LoopSmall(s: Sender, segment: TcpSegment)
    requires AllSmall(s) && Small(segment)
    ensures AllSmall(s.FillLoop(segment).0) && Small(s.FillLoop(segment).1)
    decreases s.stream.Size()
  {
    if s.stream.Size() > 0 && s.recvWdnSz > 0 {
      var (t, seg) := s.FillOne(segment);
      OneSmall(s, segment);
      LoopSmall(t, seg);
    }
  }

  lemma FillSmall(s: Sender)
    requires AllSmall(s)
    ensures AllSmall(s.FillWindow())
  {
    if !s.syn {
      SendSmall(s.(syn := true), EMPTY_SEGMENT.(header := DEFAULT_HEADER.(syn := true)));
    } else {
      var (t, seg) := s.FillLoop(EMPTY_SEGMENT);
      LoopSmall(s, EMPTY_SEGMENT);
      if !t.finSent && t.stream.Eof() && t.recvWdnSz > 0 {
        SendSmall(t.(recvWdnSz := Trunc16(t.recvWdnSz - 1)), seg.(header := seg.header.(fin := true)));
      }
    }
  }

  lemma AckSmall(s: Sender, ackno: u32, window: u16)
    requires AllSmall(s)
    ensures AllSmall(s.AckReceived(ackno, window))
  {
    FillSmall(s.Acknowledge(Unwrap(ackno, s.isn, s.absAckno), window));
  }

  lemma ApplySmall(s: Sender, op: Op)
    requires AllSmall(s)
    ensures AllSmall(Apply(s, op))
  {
    match op
    case Fill => FillSmall(s);
    case Ack(ackno, window) => AckSmall(s, ackno, window);
    case _ =>
  }

  /** In every run of a sender, whatever it is asked, no segment queued or stored has more than 1452 bytes. */
  lemma {:induction false} RunSmall(capacity: nat, initialRto: u16, isn: u32, ops: seq<Op>)
    ensures AllSmall(Run(NewSender(capacity, initialRto, isn), ops))
  {
    if ops != [] {
      RunSmall(capacity, initialRto, isn, ops[..|ops| - 1]);
      ApplySmall(Run(NewSender(capacity, initialRto, isn), ops[..|ops| - 1]), ops[|ops| - 1]);
    }
  }

  // One call

  /** What is queued after the first `n` segments carries data, and all of it but the last is full. */
  predicate FullFrom(segs: seq<TcpSegment>, n: nat)
  {
    && (forall i :: n <= i < |segs| ==> segs[i].payload != [])
    && (forall i :: n <= i < |segs| - 1 ==> |segs[i].payload| == 1452)
  }

  /** One iteration queues one segment; it is full, unless the stream or the window has run out. */
  lemma OneFull(s: Sender, segment: TcpSegment)
    requires Inv(s) && s.syn && !s.finSent && segment.header == DEFAULT_HEADER
    requires s.stream.Size() > 0 && s.recvWdnSz > 0
    ensures var t := s.FillOne(segment).0;
            && |t.segmentsOut| == |s.segmentsOut| + 1 && s.segmentsOut <= t.segmentsOut
            && var seg := t.segmentsOut[|s.segmentsOut|];
               && |seg.payload| == Min(1452, Min(s.stream.Size(), s.recvWdnSz))
               && t.stream.read == s.stream.read + |seg.payload| && t.recvWdnSz <= s.recvWdnSz - |seg.payload|
               && (t.finSent || t.recvWdnSz == s.recvWdnSz - |seg.payload|)
  {
    FillOneIs(s, segment);
  }

  lemma {:induction false} LoopFull(s: Sender, segment: TcpSegment)
    requires Inv(s) && s.syn && (s.finSent || segment.header == DEFAULT_HEADER)
    ensures var t := s.FillLoop(segment).0;
            && s.segmentsOut <= t.segmentsOut && FullFrom(t.segmentsOut, |s.segmentsOut|)
            && t.stream.read == s.stream.read + Min(s.stream.Size(), s.recvWdnSz)
            && (t.stream.read == s.stream.read ==> t == s)
    decreases s.stream.Size()
  {
    if s.stream.Size() > 0 && s.recvWdnSz > 0 {
      var (t, seg) := s.FillOne(segment);
      FillOneInv(s, segment);
      OneFull(s, segment);
      LoopFull(t, seg);
      FullThenMore(s.segmentsOut, t.segmentsOut, t.FillLoop(seg).0.segmentsOut);
    }
  }

  /** A segment that is not full is the last. */
  lemma FullThenMore(a: seq<TcpSegment>, b: seq<TcpSegment>, c: seq<TcpSegment>)
    requires |b| == |a| + 1 && a <= b <= c && FullFrom(c, |b|)
    requires b[|a|].payload != [] && (|c| > |b| ==> |b[|a|].payload| == 1452)
    ensures a <= c && FullFrom(c, |a|)
  {
    assert c[|a|] == b[|a|];
  }

  /** One call of `fill_window`: either it sends data, in segments of 1452 bytes and a last one of what is left, as much
      as there is and the window admits; or it sends at most one segment, without data. */
  lemma FillFull(s: Sender)
    requires Inv(s) && s.syn
    ensures var s', n := s.FillWindow(), |s.segmentsOut|;
            && s.segmentsOut <= s'.segmentsOut
            && s'.stream.read == s.stream.read + Min(s.stream.Size(), s.recvWdnSz)
            && (s'.stream.read > s.stream.read ==> FullFrom(s'.segmentsOut, n))
            && (s'.stream.read == s.stream.read ==>
                  && |s'.segmentsOut| <= n + 1
                  && forall i :: n <= i < |s'.segmentsOut| ==> s'.segmentsOut[i].payload == [])
  {
    var (t, seg) := s.FillLoop(EMPTY_SEGMENT);
    FillLoopInv(s, EMPTY_SEGMENT);
    LoopFull(s, EMPTY_SEGMENT);
  }
}
