/** Exactly when the first FIN to arrive is harmless, whatever genuine segments follow. */
module FinOvertakes {
  import opened Machine
  import opened WrappingIntegers
  import opened Segments
  import opened Assembly
  import opened TcpSender
  import opened TcpReceiver
  import opened SenderInvariant
  import opened ReceiverRuns
  import opened TwoParty
  import opened TwoPartySafety
  import opened EarlyEnds
  import AssemblyRuns

  /** Segments that the sender may have sent, and reads. */
  ghost predicate Sent(events: seq<Event>, s: Sender)
  {
    forall e <- events :: e.Segment? ==> Sendable(e.seg, s)
  }

  /** Whatever the sender may have sent follows, the output does not end before the last byte. */
  ghost predicate NeverEndsEarly(r: Receiver, s: Sender)
    requires r.Valid()
  {
    forall events :: Sent(events, s) ==>
      ReceiverRuns.RunFrom(r, events).asm.out.ended ==>
        ReceiverRuns.RunFrom(r, events).asm.out.history == s.stream.history
  }

  ghost predicate LastThere(a: Assembly, stream: seq<byte>)
  {
    stream != [] ==> AssemblyRuns.Has(a, |stream| - 1)
  }

  /** The FIN has arrived, the last byte is there, and the output has not ended early. */
  ghost predicate Harmless(r: Receiver, s: Sender)
  {
    && ReceiverOk(r, s) && LastThere(r.asm, s.stream.history)
    && (r.asm.out.ended ==> r.asm.out.history == s.stream.history)
  }

  /** What a push does when the last byte is there. */
  lemma PushHarmless(a: Assembly, data: seq<byte>, index: nat, eof: bool, stream: seq<byte>)
    requires a.Valid() && AssemblyRuns.Agrees(a, stream) && LastThere(a.Push(data, index, eof), stream)
    requires AssemblyRuns.Agrees(a.Push(data, index, eof), stream)
    requires a.out.ended ==> a.out.history == stream
    ensures a.Push(data, index, eof).out.ended ==> a.Push(data, index, eof).out.history == stream
  {
    var b := a.Push(data, index, eof);
    AssemblyRuns.PushFlags(a, data, index, eof);
    AssemblyRuns.PushKeepsEdge(a, data, index, eof);
    if b.held == map[] { AllThere(b, stream); }
  }

  lemma AcceptHarmless(r: Receiver, s: Sender, seg: TcpSegment, from: nat)
    requires Inv(s) && ReceiverOk(r, s) && from + seg.Length() <= s.nextSeqno < TWO31 && seg.header.syn != r.syn
    requires SentAt(seg, from, s.isn, s.stream.history, s.finSent)
    requires r.asm.out.ended ==> r.asm.out.history == s.stream.history
    requires LastThere(r.Accept(seg, s.isn, from).asm, s.stream.history)
    ensures Harmless(r.Accept(seg, s.isn, from), s)
  {
    AcceptOk(r, s, seg, from);
    AcceptFields(r, seg, s.isn, from);
    PushHarmless(r.asm, seg.payload, PushIndex(seg, from), r.end || seg.header.fin, s.stream.history);
  }

  lemma LastStays(r: Receiver, seg: TcpSegment, isn: u32, from: nat, stream: seq<byte>)
    requires r.Valid() && from < TWO31 && LastThere(r.asm, stream)
    ensures LastThere(r.Accept(seg, isn, from).asm, stream)
  {
    AcceptFields(r, seg, isn, from);
    if stream != [] {
      AssemblyRuns.PushHas(r.asm, seg.payload, PushIndex(seg, from), r.end || seg.header.fin, |stream| - 1);
    }
  }

  lemma EventHarmless(r: Receiver, s: Sender, e: Event)
    requires Inv(s) && s.nextSeqno < TWO31 && Harmless(r, s) && (e.Segment? ==> Sendable(e.seg, s))
    ensures Harmless(ReceiverRuns.Apply(r, e), s)
  {
    if e.Segment? {
      var seg := e.seg;
      var from: nat :| from + seg.Length() <= s.nextSeqno && SentAt(seg, from, s.isn, s.stream.history, s.finSent);
      ReceivedIs(r, s, seg, from);
      if seg.header.syn != r.syn {
        LastStays(r, seg, s.isn, from, s.stream.history);
        AcceptHarmless(r, s, seg, from);
      }
    }
  }

  lemma {:induction false} RunHarmless(r: Receiver, s: Sender, events: seq<Event>)
    requires Inv(s) && s.nextSeqno < TWO31 && Harmless(r, s) && Sent(events, s)
    ensures Harmless(ReceiverRuns.RunFrom(r, events), s)
  {
    if events != [] {
      var m := |events| - 1;
      assert events[m] in events;
      RunHarmless(r, s, events[..m]);
      EventHarmless(ReceiverRuns.RunFrom(r, events[..m]), s, events[m]);
    }
  }

  lemma StaysHarmless(r: Receiver, s: Sender)
    requires Inv(s) && s.nextSeqno < TWO31 && Harmless(r, s)
    ensures NeverEndsEarly(r, s)
  {
    forall events | Sent(events, s)
      ensures ReceiverRuns.RunFrom(r, events).asm.out.ended ==>
                ReceiverRuns.RunFrom(r, events).asm.out.history == s.stream.history
    {
      RunHarmless(r, s, events);
    }
  }

  // The other direction

  /** A segment the sender may send that carries nothing. */
  function Bare(s: Sender): TcpSegment
  {
    EMPTY_SEGMENT.(header := DEFAULT_HEADER.(seqno := Wrap(s.nextSeqno, s.isn)))
  }

  /** A segment with the bytes from `from` up to `to`. */
  function Carrying(s: Sender, from: nat, to: nat): TcpSegment
    requires from <= to <= |s.stream.history|
  {
    TcpSegment(DEFAULT_HEADER.(seqno := Wrap(from + 1, s.isn)), s.stream.history[from..to])
  }

  lemma BareMarks(r: Receiver, s: Sender)
    requires Inv(s) && s.nextSeqno < TWO31 && ReceiverOk(r, s) && r.syn && r.end
    ensures Sendable(Bare(s), s)
    ensures var r' := r.SegmentReceived(Bare(s));
            && ReceiverOk(r', s) && r'.end && r'.syn && r'.asm.eofKept
            && r'.asm == r.asm.(eofKept := true, out := r'.asm.out) && r'.asm.out.history == r.asm.out.history
            && (r.asm.held == map[] ==> r'.asm.out.ended)
  {
    var seg := Bare(s);
    assert SentAt(seg, s.nextSeqno, s.isn, s.stream.history, s.finSent);
    ReceiveOk(r, s, seg);
    ReceivedIs(r, s, seg, s.nextSeqno);
    AcceptFields(r, seg, s.isn, s.nextSeqno);
  }

  lemma CarryingSendable(s: Sender, from: nat, to: nat)
    requires Inv(s) && s.syn && from < to <= s.stream.read
    ensures Sendable(Carrying(s, from, to), s)
  {
    var seg := Carrying(s, from, to);
    assert SentAt(seg, from + 1, s.isn, s.stream.history, s.finSent);
  }

  lemma CarryingEnds(r: Receiver, s: Sender, m: nat) returns (seg: TcpSegment)
    requires Inv(s) && s.nextSeqno < TWO31 && ReceiverOk(r, s) && r.syn && r.end && r.asm.eofKept
    requires m in r.asm.held && forall p <- r.asm.held.Keys :: p <= m
    ensures Sendable(seg, s)
    ensures var r' := r.SegmentReceived(seg); r'.asm.out.ended && r'.asm.Written() == m + 1
  {
    var w := r.asm.Written();
    seg := Carrying(s, w, m + 1);
    CarryingSendable(s, w, m + 1);
    assert SentAt(seg, w + 1, s.isn, s.stream.history, s.finSent);
    ReceivedIs(r, s, seg, w + 1);
    AcceptFields(r, seg, s.isn, w + 1);
    ClosesGaps(r.asm, s.stream.history, m, true);
    ClosingEnds(r.asm, s.stream.history, m, true);
  }

  lemma GreatestHeld(a: Assembly, stream: seq<byte>) returns (m: nat)
    requires AssemblyRuns.Agrees(a, stream) && a.held != map[] && !LastThere(a, stream)
    ensures m in a.held && (forall p <- a.held.Keys :: p <= m) && m + 1 < |stream|
  {
    assert a.held.Keys != {} by { var p :| p in a.held; }
    m := Greatest(a.held.Keys);
  }

  lemma RunTwo(r: Receiver, e: Event, f: Event)
    requires r.Valid()
    ensures ReceiverRuns.RunFrom(r, [e]) == ReceiverRuns.Apply(r, e)
    ensures ReceiverRuns.RunFrom(r, [e, f]) == ReceiverRuns.Apply(ReceiverRuns.Apply(r, e), f)
  {
    assert [e][..0] == [] && [e, f][..1] == [e];
    assert ReceiverRuns.RunFrom(r, []) == r;
  }

  lemma ShownEarly(r: Receiver, s: Sender, events: seq<Event>)
    requires r.Valid() && Sent(events, s)
    requires var r' := ReceiverRuns.RunFrom(r, events); r'.asm.out.ended && r'.asm.Written() < |s.stream.history|
    ensures !NeverEndsEarly(r, s)
  {
  }

  lemma EarlyAtOnce(r: Receiver, s: Sender, seg: TcpSegment)
    requires r.Valid() && Sendable(seg, s)
    requires var r' := r.SegmentReceived(seg); r'.asm.out.ended && r'.asm.Written() < |s.stream.history|
    ensures !NeverEndsEarly(r, s)
  {
    RunTwo(r, Segment(seg), Segment(seg));
    ShownEarly(r, s, [Segment(seg)]);
  }

  lemma EarlyLater(r: Receiver, s: Sender, seg: TcpSegment, next: TcpSegment)
    requires r.Valid() && Sendable(seg, s) && Sendable(next, s)
    requires var r' := r.SegmentReceived(seg).SegmentReceived(next);
             r'.asm.out.ended && r'.asm.Written() < |s.stream.history|
    ensures !NeverEndsEarly(r, s)
  {
    RunTwo(r, Segment(seg), Segment(next));
    ShownEarly(r, s, [Segment(seg), Segment(next)]);
  }

  /** The mark is set and something is held: closing the gaps before it ends the output. */
  lemma SomeFilling(r: Receiver, s: Sender) returns (seg: TcpSegment)
    requires Inv(s) && s.nextSeqno < TWO31 && ReceiverOk(r, s) && r.syn && r.end && r.asm.eofKept
    requires r.asm.held != map[] && !LastThere(r.asm, s.stream.history)
    ensures Sendable(seg, s)
    ensures var r' := r.SegmentReceived(seg); r'.asm.out.ended && r'.asm.Written() < |s.stream.history|
  {
    var m := GreatestHeld(r.asm, s.stream.history);
    seg := CarryingEnds(r, s, m);
  }

  lemma EarlyOnceFilled(r: Receiver, s: Sender, seg: TcpSegment, r': Receiver)
    requires r.Valid() && Sendable(seg, s) && r' == r.SegmentReceived(seg)
    requires Inv(s) && s.nextSeqno < TWO31 && ReceiverOk(r', s) && r'.syn && r'.end && r'.asm.eofKept
    requires r'.asm.held != map[] && !LastThere(r'.asm, s.stream.history)
    ensures !NeverEndsEarly(r, s)
  {
    var next := SomeFilling(r', s);
    EarlyLater(r, s, seg, next);
  }

  /** With the FIN in and the last byte missing, some continuation ends the output early. */
  lemma SomeEndEarly(r: Receiver, s: Sender)
    requires Inv(s) && s.nextSeqno < TWO31 && ReceiverOk(r, s) && r.syn && r.end
    requires !LastThere(r.asm, s.stream.history)
    ensures !NeverEndsEarly(r, s)
  {
    BareMarks(r, s);
    if r.asm.held == map[] {
      EarlyAtOnce(r, s, Bare(s));
    } else {
      EarlyOnceFilled(r, s, Bare(s), r.SegmentReceived(Bare(s)));
    }
  }

  // The condition

  lemma BareFinBrings(r: Receiver, s: Sender, seg: TcpSegment, from: nat)
    requires r.Valid() && from < TWO31 && seg.payload == []
    ensures LastThere(r.Accept(seg, s.isn, from).asm, s.stream.history) <==> LastThere(r.asm, s.stream.history)
  {
    AcceptFields(r, seg, s.isn, from);
  }

  lemma PushBrings(a: Assembly, data: seq<byte>, index: nat, n: nat)
    requires a.Valid() && index + |data| == n && data != []
    ensures AssemblyRuns.Has(a.Push(data, index, true), n - 1) <==> n <= a.Edge()
  {
    AssemblyRuns.PushHas(a, data, index, true, n - 1);
    InSpan(n - 1, index, |data|);
  }

  /** The part of the stream after `index`, with the FIN. */
  lemma PushLast(a: Assembly, data: seq<byte>, index: nat, stream: seq<byte>, b: Assembly)
    requires a.Valid() && index + |data| == |stream| && data != [] && b == a.Push(data, index, true)
    ensures LastThere(b, stream) <==> |stream| <= a.Edge()
  {
    PushBrings(a, data, index, |stream|);
  }

  lemma DataFinBrings(r: Receiver, isn: u32, seg: TcpSegment, index: nat, stream: seq<byte>, a: Assembly, b: Assembly)
    requires r.Valid() && index + 1 < TWO31 && !seg.header.syn && seg.header.fin
    requires a == r.asm && b == r.Accept(seg, isn, index + 1).asm
    requires index + |seg.payload| == |stream| && seg.payload != []
    ensures LastThere(b, stream) <==> |stream| <= a.Edge()
  {
    assert b == a.Push(seg.payload, index, true);
    PushLast(a, seg.payload, index, stream, b);
  }

  /** After the FIN the last byte is there exactly if it was there or comes with it inside the window. */
  lemma FinBrings(r: Receiver, s: Sender, seg: TcpSegment, from: nat)
    requires r.Valid() && from < TWO31
    requires SentAt(seg, from, s.isn, s.stream.history, s.finSent) && seg.header.fin
    ensures LastThere(r.Accept(seg, s.isn, from).asm, s.stream.history) <==>
            if seg.payload == [] then LastThere(r.asm, s.stream.history) else |s.stream.history| <= r.asm.Edge()
  {
    if seg.payload == [] {
      BareFinBrings(r, s, seg, from);
    } else {
      DataFinBrings(r, s.isn, seg, from - 1, s.stream.history, r.asm, r.Accept(seg, s.isn, from).asm);
    }
  }

  /** What decides is whether the last byte is there after the FIN. */
  lemma LastDecides(r: Receiver, s: Sender, seg: TcpSegment, from: nat)
    requires Inv(s) && ReceiverOk(r, s) && from + seg.Length() <= s.nextSeqno < TWO31
    requires SentAt(seg, from, s.isn, s.stream.history, s.finSent) && seg.header.fin
    requires r.syn && !r.end && !r.asm.out.ended
    ensures NeverEndsEarly(r.Accept(seg, s.isn, from), s) <==>
            LastThere(r.Accept(seg, s.isn, from).asm, s.stream.history)
  {
    var r' := r.Accept(seg, s.isn, from);
    if LastThere(r'.asm, s.stream.history) {
      AcceptHarmless(r, s, seg, from);
      StaysHarmless(r', s);
    } else {
      AcceptOk(r, s, seg, from);
      AcceptFields(r, seg, s.isn, from);
      SomeEndEarly(r', s);
    }
  }

  /** The first FIN to arrive, of whatever segment the sender may have sent, is harmless in every continuation if and
      only if it is bare and the byte before it is there, or it carries data that ends inside the window. */
  lemma FinSafeIff(r: Receiver, s: Sender, seg: TcpSegment)
    requires Inv(s) && s.nextSeqno < TWO31 && ReceiverOk(r, s) && Sendable(seg, s) && seg.header.fin
    requires r.syn && !r.end && !r.asm.out.ended
    ensures NeverEndsEarly(r.SegmentReceived(seg), s) <==>
            var end := FinPosition(r, seg);
            if seg.payload == [] then end <= 0 || AssemblyRuns.Has(r.asm, end - 1) else end <= r.asm.Edge()
  {
    var from: nat :| from + seg.Length() <= s.nextSeqno && SentAt(seg, from, s.isn, s.stream.history, s.finSent);
    SegmentUnwraps(r, s, seg, from);
    ReceivedIs(r, s, seg, from);
    FinBrings(r, s, seg, from);
    LastDecides(r, s, seg, from);
  }
}
