/** Exactly when the first FIN to arrive is harmless in every continuation of the run: the segments that do the harm
    are among those that the sender has sent. */
module OvertakingFins {
  import opened Machine
  import opened Segments
  import opened Assembly
  import opened TcpSender
  import opened TcpReceiver
  import opened SenderInvariant
  import opened TwoParty
  import opened TwoPartySafety
  import opened TwoPartyRuns
  import opened EarlyEnds
  import opened FinOvertakes
  import opened Slices
  import AssemblyRuns

  /** If the output has ended, it is the whole stream. */
  ghost predicate EndsWhole(w: World)
  {
    w.receiver.asm.out.ended ==> w.receiver.asm.out.history == w.sender.stream.history
  }

  /** Whatever follows, the output does not end early. */
  ghost predicate NeverEarlyFrom(w: World)
    requires w.Valid()
  {
    forall steps :: Legal(w, steps) && Run(w, steps).sender.nextSeqno < TWO31 ==> EndsWhole(Run(w, steps))
  }

  // If the FIN is kept

  lemma NextKeeps(w: World, step: Step)
    requires w.Valid() && w.receiver.end && w.finKept
    ensures Next(w, step).receiver.end && Next(w, step).finKept
  {
  }

  lemma {:induction false} RunKeeps(w: World, steps: seq<Step>)
    requires w.Valid() && w.receiver.end && w.finKept
    ensures Run(w, steps).receiver.end && Run(w, steps).finKept
  {
    if steps != [] {
      RunKeeps(w, steps[..|steps| - 1]);
      NextKeeps(Run(w, steps[..|steps| - 1]), steps[|steps| - 1]);
    }
  }

  lemma KeptNeverEarly(w: World)
    requires FullInv(w) && w.receiver.end && w.finKept
    ensures NeverEarlyFrom(w)
  {
    forall steps | Legal(w, steps) && Run(w, steps).sender.nextSeqno < TWO31 ensures EndsWhole(Run(w, steps)) {
      RunKeeps(w, steps);
      RunInv(w, steps);
    }
  }

  // If it is not

  /** The end mark is taken, and ends the output as soon as nothing is held. */
  ghost predicate Marked(a: Assembly)
  {
    a.eofKept && (a.held == map[] ==> a.out.ended)
  }

  lemma PushMarked(a: Assembly, data: seq<byte>, index: nat, eof: bool)
    requires a.Valid() && Marked(a)
    ensures Marked(a.Push(data, index, eof))
  {
    AssemblyRuns.PushFlags(a, data, index, eof);
  }

  lemma FilledUpTo(a: Assembly, n: nat)
    requires a.Valid() && forall p: nat :: p < n ==> AssemblyRuns.Has(a, p)
    ensures a.Written() >= n
  {
    NextMissing(a);
  }

  /** A slice that continues what is written. */
  lemma PushContinues(a: Assembly, data: seq<byte>, i: nat, eof: bool)
    requires a.Valid() && i <= a.Written() && i + |data| <= a.Edge()
    ensures var b := a.Push(data, i, eof);
            && b.Written() >= i + |data| && b.Edge() == a.Edge()
            && forall p: nat :: AssemblyRuns.Has(b, p) <==> AssemblyRuns.Has(a, p) || p < i + |data|
  {
    var b := a.Push(data, i, eof);
    forall p: nat ensures AssemblyRuns.Has(b, p) <==> AssemblyRuns.Has(a, p) || p < i + |data| {
      AssemblyRuns.PushHas(a, data, i, eof, p);
      InSpan(p, i, |data|);
    }
    FilledUpTo(b, i + |data|);
    AssemblyRuns.PushKeepsEdge(a, data, i, eof);
  }

  lemma SliceFrom(s: Sender, seg: TcpSegment, i: nat, cuts: set<nat>)
    requires Counting(s) && s.nextSeqno < TWO31 && Sendable(seg, s) && (forall c <- cuts :: c <= s.stream.read)
    requires SliceAt(seg, i, s, cuts)
    ensures i + 1 + seg.Length() <= s.nextSeqno && SentAt(seg, i + 1, s.isn, s.stream.history, s.finSent)
  {
    var from: nat :| from + seg.Length() <= s.nextSeqno && SentAt(seg, from, s.isn, s.stream.history, s.finSent);
    SliceIsThere(s, seg, from, i, cuts);
  }

  lemma DataArrives(r: Receiver, s: Sender, seg: TcpSegment, i: nat)
    requires ReceiverOk(r, s) && r.syn && seg.payload != [] && i + 1 <= s.nextSeqno < TWO31
    requires SentAt(seg, i + 1, s.isn, s.stream.history, s.finSent)
    ensures var r' := r.SegmentReceived(seg);
            r'.asm == r.asm.Push(seg.payload, i, r.end || seg.header.fin) && r'.syn
  {
    ReceivedIs(r, s, seg, i + 1);
    AcceptFields(r, seg, s.isn, i + 1);
  }

  lemma SliceArrives(r: Receiver, s: Sender, seg: TcpSegment, i: nat, cuts: set<nat>)
    requires Inv(s) && ReceiverOk(r, s) && s.nextSeqno < TWO31 && r.syn && seg in s.segmentsOut
    requires Sliced(s, cuts) && SliceAt(seg, i, s, cuts)
    ensures var r' := r.SegmentReceived(seg);
            r'.asm == r.asm.Push(seg.payload, i, r.end || seg.header.fin) && r'.syn
  {
    SliceFrom(s, seg, i, cuts);
    DataArrives(r, s, seg, i);
  }

  /** What the deliveries leave as it was. */
  ghost predicate Awaits(w: World, cuts: set<nat>)
  {
    SlicedWorld(w, cuts) && w.sender.nextSeqno < TWO31 && w.receiver.syn && Marked(w.receiver.asm)
  }

  lemma DeliverSlice(w: World, cuts: set<nat>, seg: TcpSegment, i: nat) returns (v: World)
    requires Awaits(w, cuts) && seg in w.sender.segmentsOut && SliceAt(seg, i, w.sender, cuts)
    requires i <= w.receiver.asm.Written() && i + |seg.payload| <= w.receiver.asm.Edge()
    ensures v == Next(w, DeliverSegment(seg)) && v.sender == w.sender && Awaits(v, cuts)
    ensures var a, b := w.receiver.asm, v.receiver.asm;
            && b.Written() >= i + |seg.payload| && b.Edge() == a.Edge()
            && forall p: nat :: AssemblyRuns.Has(b, p) <==> AssemblyRuns.Has(a, p) || p < i + |seg.payload|
  {
    var r := w.receiver;
    v := Next(w, DeliverSegment(seg));
    NextInv(w, DeliverSegment(seg));
    NextLog(w, DeliverSegment(seg));
    ReceiverBreaks(w, DeliverSegment(seg), cuts);
    SliceArrives(r, w.sender, seg, i, cuts);
    PushMarked(r.asm, seg.payload, i, r.end || seg.header.fin);
    PushContinues(r.asm, seg.payload, i, r.end || seg.header.fin);
  }

  /** The cut before `c`, and the slice between the two. */
  lemma SliceBefore(s: Sender, cuts: set<nat>, c: nat) returns (i: nat, seg: TcpSegment)
    requires Sliced(s, cuts) && c in cuts && c > 0
    ensures i < c && i in cuts && seg in s.segmentsOut && SliceAt(seg, i, s, cuts) && i + |seg.payload| == c
  {
    var below := set b | b in cuts && b < c;
    assert 0 in below;
    i := Greatest(below);
    assert HasSlice(s, i, cuts);
    seg :| seg in s.segmentsOut && SliceAt(seg, i, s, cuts);
    assert i + |seg.payload| < c ==> i + |seg.payload| in below;
  }

  /** Delivering the slices up to a cut in the window makes what is before it complete, and nothing else. */
  lemma {:induction false} FillTo(w: World, cuts: set<nat>, c: nat) returns (steps: seq<Step>, v: World)
    requires Awaits(w, cuts) && c in cuts && c <= w.receiver.asm.Edge()
    ensures Legal(w, steps) && v == Run(w, steps) && v.sender == w.sender && Awaits(v, cuts)
    ensures var a, b := w.receiver.asm, v.receiver.asm;
            && b.Written() >= c && b.Edge() == a.Edge()
            && forall p: nat :: AssemblyRuns.Has(b, p) <==> AssemblyRuns.Has(a, p) || p < c
    decreases c
  {
    steps, v := [], w;
    if c > 0 {
      var i, seg := SliceBefore(w.sender, cuts, c);
      var u;
      steps, u := FillTo(w, cuts, i);
      v := DeliverSlice(u, cuts, seg, i);
      RunSnoc(w, steps, u, DeliverSegment(seg), v);
      steps := steps + [DeliverSegment(seg)];
    }
  }

  /** Between two cuts what is there has no gap before it. */
  lemma {:induction false} NoGap(a: Assembly, cuts: set<nat>, t: nat, m: nat, p: nat)
    requires BreaksAtCuts(a, cuts) && AssemblyRuns.Has(a, m) && t <= p <= m && forall c <- cuts :: c <= t || m < c
    ensures AssemblyRuns.Has(a, p)
    decreases m - p
  {
    if p < m { NoGap(a, cuts, t, m, p + 1); }
  }

  /** Exactly the positions up to `m` are there. */
  lemma OnlyUpTo(a: Assembly, m: nat)
    requires a.Valid() && forall p: nat :: AssemblyRuns.Has(a, p) <==> p <= m
    ensures a.Written() == m + 1 && a.held == map[]
  {
    NextMissing(a);
    assert a.Written() > 0 ==> AssemblyRuns.Has(a, a.Written() - 1);
    forall p | p in a.held ensures false { assert AssemblyRuns.Has(a, p); }
    assert a.held.Keys == {};
  }

  /** `t` is the last cut up to `m`, the greatest position held in `a`, and `b` has what is before it as well. */
  lemma ClosesUp(a: Assembly, b: Assembly, cuts: set<nat>, t: nat, m: nat)
    requires a.Valid() && b.Valid() && BreaksAtCuts(a, cuts) && m in a.held && forall p <- a.held.Keys :: p <= m
    requires t <= m && forall c <- cuts :: c <= t || m < c
    requires forall p: nat :: AssemblyRuns.Has(b, p) <==> AssemblyRuns.Has(a, p) || p < t
    ensures b.Written() == m + 1 && b.held == map[]
  {
    forall p: nat ensures AssemblyRuns.Has(b, p) <==> p <= m {
      if t <= p <= m { NoGap(a, cuts, t, m, p); }
    }
    OnlyUpTo(b, m);
  }

  lemma LastCut(cuts: set<nat>, m: nat) returns (t: nat)
    requires 0 in cuts
    ensures t in cuts && t <= m && forall c <- cuts :: c <= t || m < c
  {
    var below := set c | c in cuts && c <= m;
    assert 0 in below;
    t := Greatest(below);
    assert forall c <- cuts :: c <= m ==> c in below;
  }

  /** Delivering the slices before the greatest position held ends the output there. */
  lemma HeldEndsEarly(w: World, cuts: set<nat>, m: nat) returns (steps: seq<Step>)
    requires Awaits(w, cuts) && m in w.receiver.asm.held && forall p <- w.receiver.asm.held.Keys :: p <= m
    ensures Legal(w, steps) && Run(w, steps).sender == w.sender
    ensures var a := Run(w, steps).receiver.asm; a.out.ended && a.Written() == m + 1
  {
    var t := LastCut(cuts, m);
    var v;
    steps, v := FillTo(w, cuts, t);
    ClosesUp(w.receiver.asm, v.receiver.asm, cuts, t, m);
  }

  lemma MarkedEndsEarly(w: World, cuts: set<nat>)
    requires Awaits(w, cuts) && !LastThere(w.receiver.asm, w.sender.stream.history)
    ensures !NeverEarlyFrom(w)
  {
    if w.receiver.asm.held == map[] {
      assert Legal(w, []) && Run(w, []) == w;
    } else {
      var m := GreatestHeld(w.receiver.asm, w.sender.stream.history);
      var steps := HeldEndsEarly(w, cuts, m);
      assert !EndsWhole(Run(w, steps));
    }
  }

  /** A bare FIN sets the mark, wherever it belongs. */
  lemma BareFinMarks(r: Receiver, s: Sender, seg: TcpSegment)
    requires Inv(s) && ReceiverOk(r, s) && s.nextSeqno < TWO31 && Sendable(seg, s) && seg.header.fin
    requires r.syn && !KeepsFin(r, seg)
    ensures var r' := r.SegmentReceived(seg);
            r'.syn && Marked(r'.asm) && !LastThere(r'.asm, s.stream.history)
  {
    var from: nat :| from + seg.Length() <= s.nextSeqno && SentAt(seg, from, s.isn, s.stream.history, s.finSent);
    SegmentUnwraps(r, s, seg, from);
    ReceivedIs(r, s, seg, from);
    AcceptFields(r, seg, s.isn, from);
    AssemblyRuns.PushFlags(r.asm, [], PushIndex(seg, from), true);
    BareFinBrings(r, s, seg, from);
  }

  /** In every run with no FIN misplaced so far, the first FIN to arrive is harmless in every continuation of the run if
      and only if it carries data or the byte before it is there. */
  lemma OvertakingFin(w: World, sendCapacity: nat, recvCapacity: nat, initialRto: u16, isn: u32, steps: seq<Step>,
                      seg: TcpSegment)
    requires Legal(Init(sendCapacity, recvCapacity, initialRto, isn), steps)
    requires w == Run(Init(sendCapacity, recvCapacity, initialRto, isn), steps)
    requires w.finKept && w.sender.nextSeqno < TWO31 && w.receiver.syn && !w.receiver.end
    requires seg in w.sender.segmentsOut && seg.header.fin
    ensures NeverEarlyFrom(Next(w, DeliverSegment(seg))) <==> KeepsFin(w.receiver, seg)
  {
    InitSliced(sendCapacity, recvCapacity, initialRto, isn);
    var cuts := RunSlices(Init(sendCapacity, recvCapacity, initialRto, isn), steps, {0});
    FinDelivered(w, cuts, seg);
  }

  lemma FinDelivered(w: World, cuts: set<nat>, seg: TcpSegment)
    requires SlicedWorld(w, cuts) && w.finKept && w.sender.nextSeqno < TWO31 && w.receiver.syn && !w.receiver.end
    requires seg in w.sender.segmentsOut && seg.header.fin
    ensures NeverEarlyFrom(Next(w, DeliverSegment(seg))) <==> KeepsFin(w.receiver, seg)
  {
    var v := Next(w, DeliverSegment(seg));
    NextInv(w, DeliverSegment(seg));
    NextLog(w, DeliverSegment(seg));
    if KeepsFin(w.receiver, seg) {
      FinTaken(w, seg);
      KeptNeverEarly(v);
    } else {
      assert Sendable(seg, w.sender);
      BareFinMarks(w.receiver, w.sender, seg);
      ReceiverBreaks(w, DeliverSegment(seg), cuts);
      MarkedEndsEarly(v, cuts);
    }
  }

  lemma FinTaken(w: World, seg: TcpSegment)
    requires WorldInv(w) && w.sender.nextSeqno < TWO31 && w.receiver.syn
    requires seg in w.sender.segmentsOut && seg.header.fin
    ensures Next(w, DeliverSegment(seg)).receiver.end
  {
    assert Sendable(seg, w.sender);
  }
}
