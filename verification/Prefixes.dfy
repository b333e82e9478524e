/** Prefix safety, which needs nothing of the application or of the acknowledgments: not even that nothing is written
    once the FIN is out. What is written late lands past the number of the FIN, and nothing ever fills that. */
module Prefixes {
  import opened Machine
  import opened WrappingIntegers
  import opened Segments
  import opened Assembly
  import opened TcpSender
  import opened TcpReceiver
  import opened TwoParty
  import opened TwoPartyRuns
  import AssemblyRuns

  /** The bytes of the stream that are sent at their own numbers: all that have been taken from it until the FIN is
      out, and then the `n` that go before the FIN. */
  function Limit(s: Sender, n: nat): nat
  {
    if s.finSent then n else s.stream.read
  }

  /** At `from` the segment carries a part of the stream up to the limit, or it lies past the FIN. */
  ghost predicate Placed(seg: TcpSegment, from: nat, s: Sender, n: nat)
  {
    && seg.header.seqno == Wrap(from, s.isn) && from + seg.Length() <= s.nextSeqno
    && (seg.header.syn ==> from == 0 && seg.payload == [])
    && (seg.payload != [] ==>
          || (s.finSent && from >= n + 2)
          || (&& 0 < from && from + |seg.payload| <= Limit(s, n) + 1
              && AssemblyRuns.IsSubstring(seg.payload, from - 1, s.stream.history)))
  }

  ghost predicate Fits(seg: TcpSegment, s: Sender, n: nat)
  {
    exists from: nat :: Placed(seg, from, s, n)
  }

  /** The numbers, without the queue and the store. */
  ghost predicate Counts(s: Sender, n: nat)
  {
    && s.stream.Valid()
    && (!s.syn ==> !s.finSent && s.stream.read == 0)
    && (if s.finSent then n <= s.stream.read && n + 2 <= s.nextSeqno
        else s.nextSeqno == s.stream.read + (if s.syn then 1 else 0))
  }

  /** All that waits in the queue or is stored for retransmission is in its place. */
  ghost predicate Placing(s: Sender, n: nat)
  {
    && Counts(s, n)
    && (forall seg <- s.segmentsOut :: Fits(seg, s, n))
    && (forall o <- s.outstanding :: Fits(o.seg, s, n))
  }

  /** Nothing sent is taken back. */
  ghost predicate Advances(s: Sender, n: nat, s': Sender, n': nat)
  {
    && s'.isn == s.isn && s.nextSeqno <= s'.nextSeqno && s.stream.history <= s'.stream.history
    && Limit(s, n) <= Limit(s', n') && (s.finSent ==> s'.finSent && n' == n) && (s.syn ==> s'.syn)
  }

  lemma FitsStill(seg: TcpSegment, s: Sender, n: nat, s': Sender, n': nat)
    requires Fits(seg, s, n) && Advances(s, n, s', n')
    ensures Fits(seg, s', n')
  {
    var from: nat :| Placed(seg, from, s, n);
    assert Placed(seg, from, s', n');
  }

  // Sender

  /** Sending adds one segment to the queue and to the store, and nothing else. */
  lemma SendPlaces(s: Sender, n: nat, segment: TcpSegment, s0: Sender, n0: nat)
    requires Placing(s0, n0) && Advances(s0, n0, s, n) && Advances(s0, n0, s.SendSegment(segment), n)
    requires s.segmentsOut == s0.segmentsOut && s.outstanding == s0.outstanding
    requires Counts(s.SendSegment(segment), n)
    requires Placed(segment.(header := segment.header.(seqno := Wrap(s.nextSeqno, s.isn))), s.nextSeqno,
                    s.SendSegment(segment), n)
    ensures Placing(s.SendSegment(segment), n)
  {
    var t := s.SendSegment(segment);
    var seg := segment.(header := segment.header.(seqno := Wrap(s.nextSeqno, s.isn)));
    assert Fits(seg, t, n);
    forall q <- t.segmentsOut ensures Fits(q, t, n) {
      if q != seg { FitsStill(q, s0, n0, t, n); }
    }
    forall o <- t.outstanding ensures Fits(o.seg, t, n) {
      InsertOnly(s0.outstanding, Outstanding(t.nextSeqno, seg), o);
      if o in s0.outstanding { FitsStill(o.seg, s0, n0, t, n); }
    }
  }

  /** One iteration of the loop, whether the FIN is out or not. */
  lemma OnePlaces(s: Sender, n: nat, segment: TcpSegment) returns (n': nat)
    requires Placing(s, n) && s.syn && s.stream.Size() > 0 && s.recvWdnSz > 0
    requires !segment.header.syn && (s.finSent || !segment.header.fin)
    ensures var (t, seg) := s.FillOne(segment);
            && Placing(t, n') && Advances(s, n, t, n') && t.syn
            && !seg.header.syn && (t.finSent || !seg.header.fin)
            && (!t.finSent && t.stream.Eof() ==> t.recvWdnSz == 0)
  {
    var (u, seg) := s.Take(segment);
    n' := if s.finSent then n else u.stream.read;
    assert seg.payload == s.stream.history[s.stream.read..u.stream.read] && |seg.payload| > 0;
    SendPlaces(u, n', seg, s, n);
  }

  lemma {:induction false} LoopPlaces(s: Sender, n: nat, segment: TcpSegment) returns (n': nat)
    requires Placing(s, n) && s.syn && !segment.header.syn && (s.finSent || !segment.header.fin)
    ensures var (t, seg) := s.FillLoop(segment);
            && Placing(t, n') && Advances(s, n, t, n') && t.syn
            && !seg.header.syn && (t.finSent || !seg.header.fin)
            && (!t.finSent && t.stream.Eof() && t.recvWdnSz > 0 ==> t == s && seg == segment)
    decreases s.stream.Size()
  {
    n' := n;
    if s.stream.Size() > 0 && s.recvWdnSz > 0 {
      var (t, seg) := s.FillOne(segment);
      var m := OnePlaces(s, n, segment);
      n' := LoopPlaces(t, m, seg);
      AdvancesOn(s, n, t, m, t.FillLoop(seg).0, n');
    }
  }

  lemma AdvancesOn(s: Sender, n: nat, t: Sender, m: nat, u: Sender, k: nat)
    requires Advances(s, n, t, m) && Advances(t, m, u, k)
    ensures Advances(s, n, u, k)
  {
  }

  lemma FinPlaces(s: Sender, n: nat, segment: TcpSegment) returns (n': nat)
    requires Placing(s, n) && s.syn && !segment.header.syn && (s.finSent || !segment.header.fin)
    requires !s.finSent && s.stream.Eof() && s.recvWdnSz > 0 ==> segment.payload == []
    ensures Placing(s.FillFin(segment), n') && Advances(s, n, s.FillFin(segment), n')
  {
    n' := n;
    if !s.finSent && s.stream.Eof() && s.recvWdnSz > 0 {
      n' := s.stream.read;
      var t := s.(recvWdnSz := Trunc16(s.recvWdnSz - 1), finSent := true);
      var seg := segment.(header := segment.header.(fin := true));
      assert t.SendSegment(seg) == s.FillFin(segment);
      SendPlaces(t, n', seg, s, n);
    }
  }

  lemma FillPlaces(s: Sender, n: nat) returns (n': nat)
    requires Placing(s, n)
    ensures Placing(s.FillWindow(), n') && Advances(s, n, s.FillWindow(), n')
  {
    if !s.syn {
      n' := n;
      SendPlaces(s.(syn := true), n, EMPTY_SEGMENT.(header := DEFAULT_HEADER.(syn := true)), s, n);
    } else {
      var (t, seg) := s.FillLoop(EMPTY_SEGMENT);
      n' := LoopPlaces(s, n, EMPTY_SEGMENT);
      n' := FinPlaces(t, n', seg);
    }
  }

  /** Whatever adds nothing to the queue or the store that was not there. */
  lemma SamePlaces(s: Sender, n: nat, s': Sender)
    requires Placing(s, n) && Advances(s, n, s', n) && Counts(s', n)
    requires forall seg <- s'.segmentsOut :: seg in s.segmentsOut || exists o <- s.outstanding :: o.seg == seg
    requires forall o <- s'.outstanding :: o in s.outstanding
    ensures Placing(s', n)
  {
    forall seg <- s'.segmentsOut ensures Fits(seg, s', n) { FitsStill(seg, s, n, s', n); }
    forall o <- s'.outstanding ensures Fits(o.seg, s', n) { FitsStill(o.seg, s, n, s', n); }
  }

  /** Any acknowledgment, sent or not. */
  lemma AckPlaces(s: Sender, n: nat, ackno: u32, window: u16) returns (n': nat)
    requires Placing(s, n)
    ensures Placing(s.AckReceived(ackno, window), n') && Advances(s, n, s.AckReceived(ackno, window), n')
  {
    var abs := Unwrap(ackno, s.isn, s.absAckno);
    n' := n;
    if abs <= s.nextSeqno {
      if abs + window < s.nextSeqno {
        SamePlaces(s, n, s.(recvWdnSz := 0));
      } else {
        SamePlaces(s, n, s.Acknowledge(abs, window));
        n' := FillPlaces(s.Acknowledge(abs, window), n);
      }
    }
  }

  lemma TickPlaces(s: Sender, n: nat, ms: nat)
    requires Placing(s, n)
    ensures Placing(s.Tick(ms), n) && Advances(s, n, s.Tick(ms), n)
  {
    if s.outstanding != [] { assert s.outstanding[0] in s.outstanding; }
    SamePlaces(s, n, s.Tick(ms));
  }

  lemma EmptyPlaces(s: Sender, n: nat)
    requires Placing(s, n)
    ensures Placing(s.SendEmptySegment(), n) && Advances(s, n, s.SendEmptySegment(), n)
  {
    var t := s.SendEmptySegment();
    forall seg <- t.segmentsOut ensures Fits(seg, t, n) {
      if seg in s.segmentsOut { FitsStill(seg, s, n, t, n); } else { assert Placed(seg, s.nextSeqno, t, n); }
    }
    forall o <- t.outstanding ensures Fits(o.seg, t, n) { FitsStill(o.seg, s, n, t, n); }
  }

  // Receiver

  /** What is there up to the limit is what the stream has there; nothing is at the limit, and past it there is
      something only after a FIN. */
  ghost predicate MapKept(m: map<nat, byte>, stream: seq<byte>, limit: nat, late: bool)
    requires limit <= |stream|
  {
    forall p :: p in m ==> if p < limit then m[p] == stream[p] else late && p > limit
  }

  ghost predicate Kept(a: Assembly, stream: seq<byte>, limit: nat, late: bool)
  {
    a.Written() <= limit <= |stream| && a.out.history <= stream && MapKept(a.held, stream, limit, late)
  }

  ghost predicate Pushable(data: seq<byte>, index: nat, stream: seq<byte>, limit: nat, late: bool)
  {
    data == [] || (late && index > limit) || (index + |data| <= limit && AssemblyRuns.IsSubstring(data, index, stream))
  }

  lemma OverlayKept(held: map<nat, byte>, data: seq<byte>, index: nat, stream: seq<byte>, limit: nat, late: bool)
    requires limit <= |stream| && MapKept(held, stream, limit, late) && Pushable(data, index, stream, limit, late)
    ensures MapKept(Overlay(held, data, index), stream, limit, late)
  {
  }

  lemma FlushKept(a: Assembly, all: map<nat, byte>, stream: seq<byte>, limit: nat, late: bool)
    requires a.out.Valid() && forall q :: q in all ==> a.Written() <= q < a.Edge()
    requires a.Written() <= limit <= |stream| && a.out.history <= stream && MapKept(all, stream, limit, late)
    ensures Kept(a.Flush(all), stream, limit, late)
  {
    var n := FirstGap(all.Keys, a.Written());
    assert limit !in all;
    var run := Slice(all, a.Written(), n);
    assert run == stream[a.Written()..n];
    assert a.out.history + run == stream[..n];
  }

  lemma PushKept(a: Assembly, data: seq<byte>, index: nat, eof: bool, stream: seq<byte>, limit: nat, late: bool)
    requires a.Valid() && Kept(a, stream, limit, late) && Pushable(data, index, stream, limit, late)
    ensures Kept(a.Push(data, index, eof), stream, limit, late)
  {
    var c := a.Clip(data, index, eof);
    if c.accepted && c.data != [] {
      assert Pushable(c.data, c.index, stream, limit, late);
      OverlayKept(a.held, c.data, c.index, stream, limit, late);
      FlushKept(a, Overlay(a.held, c.data, c.index), stream, limit, late);
    }
  }

  /** What the receiver has is a part of the stream up to the limit, or lies past it. */
  ghost predicate Got(r: Receiver, s: Sender, n: nat)
  {
    && r.Valid() && r.checkpoint <= s.nextSeqno
    && Kept(r.asm, s.stream.history, Limit(s, n), s.finSent)
    && (r.syn ==> s.syn && r.isn == s.isn)
    && (!r.syn ==> r.checkpoint == 0)
  }

  lemma GotStill(r: Receiver, s: Sender, n: nat, s': Sender, n': nat)
    requires Got(r, s, n) && Advances(s, n, s', n') && Counts(s', n')
    ensures Got(r, s', n')
  {
  }

  lemma AcceptGot(r: Receiver, s: Sender, n: nat, seg: TcpSegment, from: nat)
    requires Got(r, s, n) && Counts(s, n) && s.nextSeqno < TWO31 && Placed(seg, from, s, n)
    requires seg.header.syn || r.syn
    ensures Got(r.Accept(seg, s.isn, from), s, n)
  {
    PushKept(r.asm, seg.payload, StreamIndex(seg, from), r.end || seg.header.fin, s.stream.history, Limit(s, n),
             s.finSent);
  }

  lemma ReceiveGot(r: Receiver, s: Sender, n: nat, seg: TcpSegment)
    requires Got(r, s, n) && Counts(s, n) && s.nextSeqno < TWO31 && Fits(seg, s, n)
    ensures Got(r.SegmentReceived(seg), s, n)
  {
    var from: nat :| Placed(seg, from, s, n);
    UnwrapWrap(from, s.isn, r.checkpoint);
    if seg.header.syn != r.syn { AcceptGot(r, s, n, seg, from); }
  }

  // Runs

  /** The only thing asked of a step: a segment that is delivered has been sent. */
  predicate Sent(w: World, step: Step)
  {
    step.DeliverSegment? ==> step.seg in w.sender.segmentsOut
  }

  ghost predicate Possible(w: World, steps: seq<Step>)
    requires w.Valid()
  {
    steps == [] || (Possible(w, steps[..|steps| - 1]) && Sent(Run(w, steps[..|steps| - 1]), steps[|steps| - 1]))
  }

  ghost predicate Joined(w: World, n: nat)
  {
    Placing(w.sender, n) && Got(w.receiver, w.sender, n)
  }

  lemma SenderMoves(w: World, n: nat, step: Step) returns (n': nat)
    requires Placing(w.sender, n) && w.receiver.Valid()
    ensures Placing(Next(w, step).sender, n') && Advances(w.sender, n, Next(w, step).sender, n')
  {
    var s := w.sender;
    n' := n;
    match step {
      case Write(data) => SamePlaces(s, n, s.(stream := s.stream.Write(data)));
      case Close => SamePlaces(s, n, s.(stream := s.stream.(ended := true)));
      case Fill => n' := FillPlaces(s, n);
      case Tick(ms) => TickPlaces(s, n, ms);
      case Empty => EmptyPlaces(s, n);
      case DeliverAck(a) => n' := AckPlaces(s, n, a.ackno, a.window);
      case _ =>
    }
  }

  lemma NextJoined(w: World, n: nat, step: Step) returns (n': nat)
    requires Joined(w, n) && Sent(w, step) && w.sender.nextSeqno < TWO31
    ensures Joined(Next(w, step), n')
  {
    n' := SenderMoves(w, n, step);
    if step.DeliverSegment? {
      ReceiveGot(w.receiver, w.sender, n, step.seg);
      GotStill(Next(w, step).receiver, w.sender, n, Next(w, step).sender, n');
    } else {
      GotStill(w.receiver, w.sender, n, Next(w, step).sender, n');
    }
  }


  lemma {:induction false} RunJoined(w: World, steps: seq<Step>) returns (n: nat)
    requires Joined(w, 0) && Possible(w, steps) && Run(w, steps).sender.nextSeqno < TWO31
    ensures Joined(Run(w, steps), n)
  {
    n := 0;
    if steps != [] {
      var before, step := steps[..|steps| - 1], steps[|steps| - 1];
      NextMonotone(Run(w, before), step);
      n := RunJoined(w, before);
      n := NextJoined(Run(w, before), n, step);
    }
  }

  /** Prefix safety: whatever the channel does, however FINs arrive, whatever is acknowledged and whenever the
      application writes, the bytes the receiver has written are a prefix of those the application has written to
      the sender. */
  lemma PrefixSafety(sendCapacity: nat, recvCapacity: nat, initialRto: u16, isn: u32, steps: seq<Step>)
    requires var w := Init(sendCapacity, recvCapacity, initialRto, isn);
             Possible(w, steps) && Run(w, steps).sender.nextSeqno < TWO31
    ensures var w := Run(Init(sendCapacity, recvCapacity, initialRto, isn), steps);
            w.receiver.asm.out.history <= w.sender.stream.history
  {
    var n := RunJoined(Init(sendCapacity, recvCapacity, initialRto, isn), steps);
  }
}
