/** What a RST does: it kills the connection for good, nothing else that is received does, and it comes only from an
    endpoint that has failed. */
module Resets {
  import opened Machine
  import opened Segments
  import opened SenderInvariant
  import opened SenderSteps
  import opened SenderProgress
  import opened SenderEdges
  import opened TcpConnection
  import opened ConnectionInvariant
  import opened ConnectionRuns
  import opened GiveUp
  import opened Duplex

  /** Both streams are in error and the connection does not linger. */
  predicate Dead(c: Connection)
  {
    c.sender.stream.error && c.receiver.asm.out.error && !c.linger
  }

  /** A RST that reaches an active connection. */
  predicate Resets(c: Connection, seg: TcpSegment)
    requires c.Valid()
  {
    c.Active() && seg.header.rst
  }

  lemma AckKeepsError(s: Sender, ackno: u32, window: u16)
    requires s.stream.Valid()
    ensures s.AckReceived(ackno, window).stream == s.stream.(read := s.AckReceived(ackno, window).stream.read)
  {
    AckReceivedIs(s, ackno, window);
    FillTakes(s.Acknowledge(AckAbs(s, ackno), window));
  }

  lemma AnswerKeepsError(d: Connection, seg: TcpSegment)
    requires d.Valid()
    ensures d.Answer(seg).sender.stream.error == d.sender.stream.error && d.Answer(seg).receiver == d.receiver
  {
    FillTakes(d.sender);
  }

  /** A received segment sets the two error flags, both of them, exactly if it is a RST and the connection is active. */
  lemma ErrorIffReset(c: Connection, seg: TcpSegment)
    requires c.Valid()
    ensures var c' := c.SegmentReceived(seg);
            && (c'.sender.stream.error <==> c.sender.stream.error || Resets(c, seg))
            && (c'.receiver.asm.out.error <==> c.receiver.asm.out.error || Resets(c, seg))
  {
    if c.Active() && !seg.header.rst {
      var b := c.(sinceLast := 0);
      ReceiveActive(c, seg);
      AbsorbErrors(b, seg);
      AckKeepsError(c.sender, seg.header.ackno, seg.header.win);
      AnswerKeepsError(b.Absorb(seg), seg);
    }
  }

  /** The streams up to the reader's position and the error flags. */
  ghost predicate SameStreams(c: Connection, c': Connection)
  {
    && c'.sender.stream.history == c.sender.stream.history && c'.sender.stream.ended == c.sender.stream.ended
    && c'.receiver.asm.out.history == c.receiver.asm.out.history
    && c'.receiver.asm.out.ended == c.receiver.asm.out.ended
  }

  /** A RST sends nothing and delivers nothing. */
  lemma ResetKills(c: Connection, seg: TcpSegment)
    requires c.Valid() && Resets(c, seg)
    ensures var c' := c.SegmentReceived(seg);
            && Dead(c') && !c'.Active() && SameStreams(c, c')
            && c'.segmentsOut == c.segmentsOut && c'.sender.segmentsOut == c.sender.segmentsOut
  {
  }

  lemma DeadStays(c: Connection, act: Act)
    requires c.Valid() && Dead(c)
    ensures var c' := Do(c, act);
            Dead(c') && SameStreams(c, c') && (!act.Connect? ==> c'.segmentsOut == c.segmentsOut)
  {
    assert !c.Active();
    FillTakes(c.sender);
  }

  lemma {:induction false} RunDead(c: Connection, acts: seq<Act>)
    requires c.Valid() && Dead(c)
    ensures var c' := ActRun(c, acts);
            && Dead(c') && !c'.Active() && SameStreams(c, c')
            && ((forall act <- acts :: !act.Connect?) ==> c'.segmentsOut == c.segmentsOut)
  {
    if acts != [] {
      var m := |acts| - 1;
      assert acts[m] in acts;
      RunDead(c, acts[..m]);
      DeadStays(ActRun(c, acts[..m]), acts[m]);
    }
  }

  /** A RST is final: once an active endpoint has received one, both streams are in error, it neither lingers nor is
      active again, no write adds a byte and no segment delivers one, and nothing goes out unless it is told to
      connect. */
  lemma ResetIsFinal(c: Connection, seg: TcpSegment, acts: seq<Act>)
    requires c.Valid() && Resets(c, seg)
    ensures var c' := ActRun(c.SegmentReceived(seg), acts);
            && Dead(c') && !c'.Active() && SameStreams(c, c')
            && ((forall act <- acts :: !act.Connect?) ==> c'.segmentsOut == c.segmentsOut)
  {
    ResetKills(c, seg);
    RunDead(c.SegmentReceived(seg), acts);
  }

  // Nothing else is fatal

  /** The two ways to die: a RST, and the ninth retransmission in a row. */
  predicate Fatal(c: Connection, act: Act)
    requires c.Valid()
  {
    c.Active() && match act
                  case Receive(seg) => seg.header.rst
                  case Tick(ms) => c.Elapse(ms).sender.timer.retransmissions > 8
                  case _ => false
  }

  ghost predicate SomeFatal(c: Connection, acts: seq<Act>)
    requires c.Valid()
  {
    acts != [] && (SomeFatal(c, acts[..|acts| - 1]) || Fatal(ActRun(c, acts[..|acts| - 1]), acts[|acts| - 1]))
  }

  lemma TickErrors(c: Connection, ms: nat)
    requires c.Valid()
    ensures var c' := c.Tick(ms);
            && (c'.sender.stream.error <==> c.sender.stream.error || Fatal(c, Tick(ms)))
            && (c'.receiver.asm.out.error <==> c.receiver.asm.out.error || Fatal(c, Tick(ms)))
  {
  }

  lemma DoErrors(c: Connection, act: Act)
    requires c.Valid()
    ensures var c' := Do(c, act);
            && (c'.sender.stream.error <==> c.sender.stream.error || Fatal(c, act))
            && (c'.receiver.asm.out.error <==> c.receiver.asm.out.error || Fatal(c, act))
  {
    match act
    case Write(data) => FillTakes(c.sender.(stream := c.sender.stream.Write(data)));
    case EndInput => FillTakes(c.sender.(stream := c.sender.stream.(ended := true)));
    case Connect => FillTakes(c.sender);
    case Tick(ms) => TickErrors(c, ms);
    case Receive(seg) => ErrorIffReset(c, seg);
    case Read(_) =>
  }

  /** In every run of a connection its streams are in error exactly if it was reset or has given up, and always both. */
  lemma {:induction false} FailedIff(rt: u16, recv: nat, send: nat, isn: u32, acts: seq<Act>)
    ensures var c := NewConnection(rt, recv, send, isn);
            var c' := ActRun(c, acts);
            && (c'.sender.stream.error <==> SomeFatal(c, acts))
            && (c'.receiver.asm.out.error <==> SomeFatal(c, acts))
  {
    if acts != [] {
      var c, m := NewConnection(rt, recv, send, isn), |acts| - 1;
      FailedIff(rt, recv, send, isn, acts[..m]);
      DoErrors(ActRun(c, acts[..m]), acts[m]);
    }
  }

  // Where a RST comes from

  /** Whoever has sent a RST has failed. */
  ghost predicate Honest(c: Connection)
  {
    HasRst(c.segmentsOut) ==> Failed(c)
  }

  lemma NoRstFlush(c: Connection, peerSyn: bool)
    requires Sends(c, peerSyn) && Honest(c)
    ensures Honest(c.FlushBuffer())
  {
    QueueHasNoRst(c.sender.segmentsOut, peerSyn);
    FlushKeepsRst(c);
  }

  lemma FillFlushHonest(c: Connection, s: Sender, peerSyn: bool)
    requires Sends(c, peerSyn) && Honest(c) && Inv(s) && Progress(c.sender, s) && QueueOk(s.segmentsOut, peerSyn)
    requires s.stream.error == c.sender.stream.error
    ensures Honest(c.(sender := s.FillWindow()).FlushBuffer())
  {
    FillMoves(c, s, peerSyn);
    NoRstFlush(c.(sender := s.FillWindow()), peerSyn);
  }

  lemma FrontHonest(c: Connection, seg: TcpSegment, peerSyn: bool)
    requires Sends(c, peerSyn) && Honest(c) && c.sender.segmentsOut != [] && !seg.header.rst
    ensures Honest(c.TakeFront(seg))
  {
    Append(c.segmentsOut, [seg]);
  }

  lemma ConnectHonest(c: Connection, peerSyn: bool)
    requires ConnInv(c, peerSyn) && Honest(c)
    ensures Honest(c.Connect())
  {
    FillMoves(c, c.sender, peerSyn);
    var d := c.(sender := c.sender.FillWindow());
    if d.sender.segmentsOut != [] {
      assert d.sender.segmentsOut[0] in d.sender.segmentsOut;
      FrontHonest(d, d.sender.segmentsOut[0], peerSyn);
    }
  }

  lemma TickHonest(c: Connection, ms: nat, peerSyn: bool)
    requires ConnInv(c, peerSyn) && Honest(c)
    ensures Honest(c.Tick(ms))
  {
    if c.Active() {
      var d := c.Elapse(ms);
      ElapseKeeps(c, ms, peerSyn);
      if d.sender.timer.retransmissions > MAX_RETX_ATTEMPTS {
        ShutdownGivesUp(d);
      } else {
        NoRstFlush(d, peerSyn);
      }
    }
  }

  lemma SendReplyHonest(d: Connection, peerSyn: bool)
    requires Sends(d, peerSyn) && Honest(d)
    ensures Honest(d.SendReply())
  {
    if d.sender.segmentsOut != [] {
      var front := d.sender.segmentsOut[0];
      assert front in d.sender.segmentsOut;
      FrontHonest(d, front.(header := d.ReplyHeader(front.header)), peerSyn);
    }
  }

  lemma AnswerHonest(d: Connection, seg: TcpSegment, peerSyn: bool)
    requires Sends(d, peerSyn) && Honest(d) && (seg.Length() > 0 ==> peerSyn)
    ensures Honest(d.Answer(seg))
  {
    if seg.Length() == 0 {
      NoRstFlush(d, peerSyn);
    } else if seg.header.syn && !seg.header.ack && !d.initiator {
      FillMoves(d, d.sender, peerSyn);
      SendReplyHonest(d.(sender := d.sender.FillWindow()), peerSyn);
    } else {
      SendEmptyInv(d.sender);
      SenderMoves(d, d.sender.SendEmptySegment(), peerSyn);
      SendReplyHonest(d.(sender := d.sender.SendEmptySegment()), peerSyn);
    }
  }

  lemma ReceiveHonest(c: Connection, seg: TcpSegment, peerSyn: bool)
    requires ConnInv(c, peerSyn) && Honest(c) && Acceptable(c, seg, peerSyn)
    ensures Honest(c.SegmentReceived(seg))
  {
    if c.Active() && !seg.header.rst {
      var b := c.(sinceLast := 0);
      AbsorbKeeps(b, seg, peerSyn);
      AbsorbErrors(b, seg);
      AnswerHonest(b.Absorb(seg), seg, peerSyn);
      ReceiveActive(c, seg);
    }
  }

  lemma DoHonest(c: Connection, act: Act, peerSyn: bool)
    requires ConnInv(c, peerSyn) && Honest(c) && MayDo(c, act)
    requires act.Receive? ==> Acceptable(c, act.seg, peerSyn)
    ensures Honest(Do(c, act))
  {
    match act
    case Write(data) =>
      WriteInv(c.sender, data);
      FillFlushHonest(c, c.sender.(stream := c.sender.stream.Write(data)), peerSyn);
    case EndInput =>
      CloseInv(c.sender);
      FillFlushHonest(c, c.sender.(stream := c.sender.stream.(ended := true)), peerSyn);
    case Connect => ConnectHonest(c, peerSyn);
    case Tick(ms) => TickHonest(c, ms, peerSyn);
    case Receive(seg) => ReceiveHonest(c, seg, peerSyn);
    case Read(_) =>
  }

  lemma {:induction false} RunHonest(p: Pair, steps: seq<Step>)
    requires Endpoints(p) && Honest(p.a) && Honest(p.b) && Legal(p, steps)
    ensures Honest(Run(p, steps).a) && Honest(Run(p, steps).b)
  {
    if steps != [] {
      var before, step := steps[..|steps| - 1], steps[|steps| - 1];
      var q := Run(p, before);
      RunHonest(p, before);
      RunEndpoints(p, before);
      if step.byA { StepHonest(q.a, q.b, step.act); } else { StepHonest(q.b, q.a, step.act); }
    }
  }

  lemma StepHonest(x: Connection, y: Connection, act: Act)
    requires ConnInv(x, y.sender.syn) && ConnInv(y, x.sender.syn) && Enabled(x, y, act) && Honest(x)
    ensures Honest(Do(x, act))
  {
    if act.Receive? { DeliveredIsAcceptable(x, y, act.seg); }
    DoHonest(x, act, y.sender.syn);
  }

  /** In every run of two connections a RST that may be delivered comes from an endpoint that has failed, and delivered
      to the other it kills that one, too, for good. */
  lemma ResetsSpread(p: Pair, rtA: u16, recvA: nat, sendA: nat, isnA: u32,
                     rtB: u16, recvB: nat, sendB: nat, isnB: u32, steps: seq<Step>, seg: TcpSegment, acts: seq<Act>)
    requires p == NewPair(rtA, recvA, sendA, isnA, rtB, recvB, sendB, isnB) && Legal(p, steps)
    requires seg in Run(p, steps).b.segmentsOut && seg.header.rst && Run(p, steps).a.Active()
    ensures var q := Run(p, steps); Failed(q.b) && Dead(ActRun(q.a.SegmentReceived(seg), acts))
  {
    NewInv(sendA, rtA, isnA);
    NewInv(sendB, rtB, isnB);
    RunHonest(p, steps);
    assert HasRst(Run(p, steps).b.segmentsOut);
    ResetIsFinal(Run(p, steps).a, seg, acts);
  }

  /** Giving up reaches the peer: once the bound of `GiveUpBound` has passed, a RST is out, and it kills any active
      connection it is delivered to, for good. */
  lemma GiveUpReachesPeer(c: Connection, peerSyn: bool, acts: seq<Act>, d: nat) returns (seg: TcpSegment)
    requires ConnInv(c, peerSyn) && !Failed(c) && !HasRst(c.segmentsOut)
    requires c.sender.outstanding != [] && c.sender.wdnSz > 0 && c.sender.initialRto > 0
    requires c.sender.timer.elapsed == 0 && c.sender.timer.retransmissions == 0 && Quiet(c, acts, d)
    requires Elapsed(acts) >= 511 * c.sender.initialRto + 9 * d
    ensures seg in ActRun(c, acts).segmentsOut && seg.header.rst
    ensures forall y: Connection, more :: y.Valid() && y.Active() ==> Dead(ActRun(y.SegmentReceived(seg), more))
  {
    GiveUpBound(c, peerSyn, acts, d);
    seg :| seg in ActRun(c, acts).segmentsOut && seg.header.rst;
    forall y: Connection, more | y.Valid() && y.Active() ensures Dead(ActRun(y.SegmentReceived(seg), more)) {
      ResetIsFinal(y, seg, more);
    }
  }
}
