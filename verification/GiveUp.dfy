/** How long a connection that hears nothing new keeps retransmitting before it gives up. */
module GiveUp {
  import opened Machine
  import opened Segments
  import opened TcpSender
  import opened SenderInvariant
  import opened SenderSteps
  import opened SenderProgress
  import opened SenderLimits
  import opened TcpConnection
  import opened ConnectionInvariant
  import opened ConnectionRuns

  predicate HasRst(segs: seq<TcpSegment>)
  {
    exists seg <- segs :: seg.header.rst
  }

  /** The connection is waiting for an acknowledgment: something is outstanding, the peer's window is open, and no
      RST has been sent. */
  ghost predicate Waiting(c: Connection)
  {
    var s := c.sender;
    && ConnInv(c, true) && !Failed(c) && !HasRst(c.segmentsOut)
    && s.initialRto > 0 && s.wdnSz > 0 && s.outstanding != [] && s.timer.elapsed < s.timer.rto
  }

  ghost predicate GaveUp(c: Connection)
  {
    ConnInv(c, true) && Failed(c) && HasRst(c.segmentsOut)
  }

  /** Nothing new is acknowledged: no RST, and no acknowledgment past the highest one so far, unless it is for more
      than has been sent. */
  predicate NoNews(c: Connection, act: Act)
  {
    act.Receive? ==>
      && !act.seg.header.rst
      && (act.seg.header.ack ==>
            var abs := AckAbs(c.sender, act.seg.header.ackno);
            abs <= c.sender.maxAbsSeqno || abs > c.sender.nextSeqno)
  }

  /** A run of anything the application and the network may do, with ticks of at most `d`, in which nothing new is
      acknowledged. */
  ghost predicate Quiet(c: Connection, acts: seq<Act>, d: nat)
    requires c.Valid()
  {
    acts == [] ||
    var before, act := ActRun(c, acts[..|acts| - 1]), acts[|acts| - 1];
    && Quiet(c, acts[..|acts| - 1], d)
    && MayDo(before, act) && NoNews(before, act) && (act.Tick? ==> act.ms <= d)
  }

  lemma {:induction false} DoubledMonotone(x: nat, m: nat, n: nat)
    requires m <= n
    ensures Doubled(x, m) <= Doubled(x, n)
  {
    if m < n { DoubledMonotone(x, m, n - 1); }
  }

  lemma NineDoublings(x: nat)
    ensures Doubled(x, 9) == 512 * x
  {
    assert Doubled(x, 1) == 2 * x;
    assert Doubled(x, 2) == 4 * x;
    assert Doubled(x, 3) == 8 * x;
    assert Doubled(x, 4) == 16 * x;
    assert Doubled(x, 5) == 32 * x;
    assert Doubled(x, 6) == 64 * x;
    assert Doubled(x, 7) == 128 * x;
    assert Doubled(x, 8) == 256 * x;
  }

  // What is sent carries no RST

  lemma StampKeepsRst(segs: seq<TcpSegment>, r: Receiver)
    requires r.Valid()
    ensures HasRst(StampAll(segs, r)) <==> HasRst(segs)
  {
    var t := StampAll(segs, r);
    forall i | 0 <= i < |segs| ensures t[i].header.rst == segs[i].header.rst {}
    if HasRst(segs) {
      var seg :| seg in segs && seg.header.rst;
      var i :| 0 <= i < |segs| && segs[i] == seg;
      assert t[i] in t;
    }
    if HasRst(t) {
      var seg :| seg in t && seg.header.rst;
      var i :| 0 <= i < |t| && t[i] == seg;
      assert segs[i] in segs;
    }
  }

  lemma FlushKeepsRst(c: Connection)
    requires c.Valid()
    ensures HasRst(c.FlushBuffer().segmentsOut) <==> HasRst(c.segmentsOut) || HasRst(c.sender.segmentsOut)
    ensures !HasRst(c.FlushBuffer().sender.segmentsOut)
  {
    StampKeepsRst(c.sender.segmentsOut, c.receiver);
    Append(c.segmentsOut, StampAll(c.sender.segmentsOut, c.receiver));
  }

  lemma Append(a: seq<TcpSegment>, b: seq<TcpSegment>)
    ensures HasRst(a + b) <==> HasRst(a) || HasRst(b)
  {
    if HasRst(a) { var seg :| seg in a && seg.header.rst; assert seg in a + b; }
    if HasRst(b) { var seg :| seg in b && seg.header.rst; assert seg in a + b; }
  }

  lemma QueueHasNoRst(segs: seq<TcpSegment>, peerSyn: bool)
    requires QueueOk(segs, peerSyn)
    ensures !HasRst(segs)
  {
  }

  lemma FlushSendsNoRst(c: Connection, peerSyn: bool)
    requires c.Valid() && QueueOk(c.sender.segmentsOut, peerSyn) && !HasRst(c.segmentsOut)
    ensures !HasRst(c.FlushBuffer().segmentsOut)
  {
    QueueHasNoRst(c.sender.segmentsOut, peerSyn);
    FlushKeepsRst(c);
  }

  lemma FrontSendsNoRst(c: Connection, seg: TcpSegment)
    requires c.sender.segmentsOut != [] && !HasRst(c.segmentsOut) && !seg.header.rst
    ensures !HasRst(c.TakeFront(seg).segmentsOut)
  {
    Append(c.segmentsOut, [seg]);
  }

  // The wait goes on

  /** What the wait is about stays. */
  ghost predicate Undisturbed(s: Sender, s': Sender)
  {
    && s'.timer == s.timer && s'.initialRto == s.initialRto && s'.wdnSz > 0
    && Una(s') < s'.nextSeqno && s'.stream.error == s.stream.error
  }

  lemma OutstandingIff(s: Sender)
    requires Inv(s)
    ensures s.outstanding != [] <==> Una(s) < s.nextSeqno
  {
    TilesOrdered(s.outstanding, Una(s), s.nextSeqno, s.isn, s.stream.history, s.finSent);
  }

  lemma FillUndisturbed(s: Sender)
    requires Inv(s) && s.timer.on && s.wdnSz > 0 && Una(s) < s.nextSeqno
    ensures Undisturbed(s, s.FillWindow())
  {
    FillKeepsTimer(s);
    FillProgress(s);
    FillAddsPlain(s);
  }

  lemma AckUndisturbed(s: Sender, abs: u64, window: u16)
    requires Inv(s) && s.outstanding != [] && s.wdnSz > 0 && (abs <= s.maxAbsSeqno || abs > s.nextSeqno)
    ensures Undisturbed(s, s.AckAt(abs, window))
  {
    OutstandingIff(s);
    if abs <= s.nextSeqno <= abs + window {
      var t := s.Acknowledge(abs, window);
      AckTimer(s, abs, window);
      AcknowledgeInv(s, abs, window);
      AckProgress(s, abs, window);
      FillKeepsTimer(t);
      FillProgress(t);
      FillAddsPlain(t);
    }
  }

  /** Whatever keeps the invariant and leaves the wait undisturbed leaves the connection waiting. */
  lemma StillWaiting(c: Connection, c': Connection)
    requires Waiting(c) && ConnInv(c', true) && Undisturbed(c.sender, c'.sender)
    requires c'.receiver.asm.out.error == c.receiver.asm.out.error && !HasRst(c'.segmentsOut)
    ensures Waiting(c') && c'.sender.timer == c.sender.timer && c'.sender.initialRto == c.sender.initialRto
  {
    OutstandingIff(c'.sender);
  }

  lemma WaitingActive(c: Connection)
    requires Waiting(c)
    ensures c.Active() && c.sender.timer.on && Una(c.sender) < c.sender.nextSeqno && c.sender.bytesInFlight > 0
    ensures c.sender.timer.retransmissions <= MAX_RETX_ATTEMPTS
    ensures c.sender.timer.rto == Doubled(c.sender.initialRto, c.sender.timer.retransmissions)
  {
    OutstandingIff(c.sender);
    var s := c.sender;
    TimeoutIs(s.initialRto, s.timer.retransmissions);
    DoubledIs(s.initialRto, s.timer.retransmissions);
  }

  lemma WriteWaits(c: Connection, data: seq<byte>)
    requires Waiting(c) && MayWrite(c.sender, data)
    ensures var c' := c.Write(data);
            Undisturbed(c.sender, c'.sender) && c'.receiver == c.receiver && !HasRst(c'.segmentsOut)
  {
    WaitingActive(c);
    var s := c.sender.(stream := c.sender.stream.Write(data));
    WriteInv(c.sender, data);
    FillUndisturbed(s);
    FillMoves(c, s, true);
    FlushSendsNoRst(c.(sender := s.FillWindow()), true);
  }

  lemma EndInputWaits(c: Connection)
    requires Waiting(c)
    ensures var c' := c.EndInputStream();
            Undisturbed(c.sender, c'.sender) && c'.receiver == c.receiver && !HasRst(c'.segmentsOut)
  {
    WaitingActive(c);
    var s := c.sender.(stream := c.sender.stream.(ended := true));
    CloseInv(c.sender);
    FillUndisturbed(s);
    FillMoves(c, s, true);
    FlushSendsNoRst(c.(sender := s.FillWindow()), true);
  }

  lemma ConnectWaits(c: Connection)
    requires Waiting(c)
    ensures var c' := c.Connect();
            Undisturbed(c.sender, c'.sender) && c'.receiver == c.receiver && !HasRst(c'.segmentsOut)
  {
    WaitingActive(c);
    FillUndisturbed(c.sender);
    FillMoves(c, c.sender, true);
    var d := c.(sender := c.sender.FillWindow());
    if d.sender.segmentsOut != [] {
      var front := d.sender.segmentsOut[0];
      assert front in d.sender.segmentsOut;
      FrontSendsNoRst(d, front);
    }
  }

  lemma AbsorbWaits(c: Connection, seg: TcpSegment)
    requires Waiting(c) && NoNews(c, Receive(seg))
    ensures var d := c.Absorb(seg);
            && Undisturbed(c.sender, d.sender) && d.receiver.asm.out.error == c.receiver.asm.out.error
            && Sends(d, true) && d.segmentsOut == c.segmentsOut
  {
    WaitingActive(c);
    AbsorbErrors(c, seg);
    AbsorbKeeps(c, seg, true);
    if seg.header.ack {
      AckReceivedIs(c.sender, seg.header.ackno, seg.header.win);
      AckUndisturbed(c.sender, AckAbs(c.sender, seg.header.ackno), seg.header.win);
    }
  }

  lemma SendReplyWaits(d: Connection)
    requires d.Valid() && QueueOk(d.sender.segmentsOut, true) && !HasRst(d.segmentsOut)
    ensures var e := d.SendReply();
            && !HasRst(e.segmentsOut) && e.receiver == d.receiver
            && e.sender == d.sender.(segmentsOut := e.sender.segmentsOut)
  {
    if d.sender.segmentsOut != [] {
      var front := d.sender.segmentsOut[0];
      assert front in d.sender.segmentsOut;
      FrontSendsNoRst(d, front.(header := d.ReplyHeader(front.header)));
    }
  }

  lemma ReplyWaits(d: Connection, seg: TcpSegment)
    requires Sends(d, true) && d.sender.timer.on && d.sender.wdnSz > 0 && Una(d.sender) < d.sender.nextSeqno
    requires !HasRst(d.segmentsOut)
    ensures var e := d.Reply(seg);
            Undisturbed(d.sender, e.sender) && e.receiver == d.receiver && !HasRst(e.segmentsOut)
  {
    var s := d.sender;
    if seg.header.syn && !seg.header.ack && !d.initiator {
      FillUndisturbed(s);
      FillMoves(d, s, true);
      SendReplyWaits(d.(sender := s.FillWindow()));
    } else {
      SendReplyWaits(d.(sender := s.SendEmptySegment()));
    }
  }

  lemma AnswerWaits(d: Connection, seg: TcpSegment)
    requires Sends(d, true) && d.sender.timer.on && d.sender.wdnSz > 0 && Una(d.sender) < d.sender.nextSeqno
    requires !HasRst(d.segmentsOut)
    ensures var e := d.Answer(seg);
            Undisturbed(d.sender, e.sender) && e.receiver == d.receiver && !HasRst(e.segmentsOut)
  {
    if seg.Length() > 0 { ReplyWaits(d, seg); } else { FlushSendsNoRst(d, true); }
  }

  lemma ReceiveWaits(c: Connection, seg: TcpSegment)
    requires Waiting(c) && NoNews(c, Receive(seg))
    ensures var c' := c.SegmentReceived(seg);
            && Undisturbed(c.sender, c'.sender) && c'.receiver.asm.out.error == c.receiver.asm.out.error
            && !HasRst(c'.segmentsOut)
  {
    WaitingActive(c);
    var b := c.(sinceLast := 0);
    AbsorbWaits(b, seg);
    AnswerWaits(b.Absorb(seg), seg);
    ReceiveActive(c, seg);
  }

  /** Everything but a tick. */
  lemma ActWaits(c: Connection, act: Act)
    requires Waiting(c) && MayDo(c, act) && NoNews(c, act) && !act.Tick?
    ensures var c' := Do(c, act);
            Waiting(c') && c'.sender.timer == c.sender.timer && c'.sender.initialRto == c.sender.initialRto
  {
    WaitingActive(c);
    if act.Receive? { ReceiveKeeps(c, act.seg, true); } else { LocalKeeps(c, act, true); }
    match act {
      case Write(data) => WriteWaits(c, data);
      case EndInput => EndInputWaits(c);
      case Connect => ConnectWaits(c);
      case Receive(seg) => ReceiveWaits(c, seg);
      case Read(n) =>
    }
    StillWaiting(c, Do(c, act));
  }

  // Ticks

  /** The timer of a waiting sender after a tick. */
  lemma WaitingTick(s: Sender, ms: nat)
    requires s.timer.on && s.outstanding != [] && s.wdnSz > 0
    ensures var s', t := s.Tick(ms), s.timer;
            if t.elapsed + ms < t.rto
            then s' == s.(timer := t.(elapsed := t.elapsed + ms))
            else s' == s.(timer := Timer(t.on, Trunc32(t.rto * 2), 0, t.retransmissions + 1),
                          segmentsOut := s.segmentsOut + [s.outstanding[0].seg])
  {
  }

  lemma WaitingTicks(c: Connection, ms: nat)
    requires Waiting(c)
    ensures c.Tick(ms) == c.Elapse(ms).CheckRetransmissions().FlushBuffer()
    ensures c.Elapse(ms).sender == c.sender.Tick(ms) && c.Elapse(ms).segmentsOut == c.segmentsOut
    ensures Sends(c.Elapse(ms), true) && ConnInv(c.Tick(ms), true)
  {
    WaitingActive(c);
    ElapseKeeps(c, ms, true);
    TickKeeps(c, ms, true);
  }

  /** Time passes. */
  lemma TickEarly(c: Connection, ms: nat)
    requires Waiting(c) && c.sender.timer.elapsed + ms < c.sender.timer.rto
    ensures var c' := c.Tick(ms);
            && Waiting(c') && c'.sender.initialRto == c.sender.initialRto
            && c'.sender.timer == c.sender.timer.(elapsed := c.sender.timer.elapsed + ms)
  {
    WaitingActive(c);
    WaitingTicks(c, ms);
    WaitingTick(c.sender, ms);
    FlushSendsNoRst(c.Elapse(ms), true);
  }

  lemma DoubledGrows(x: nat, n: nat)
    requires x > 0
    ensures Doubled(x, n) > 0
  {
    DoubledMonotone(x, 0, n);
  }

  /** The lowest segment is sent again. */
  lemma TickAgain(c: Connection, ms: nat)
    requires Waiting(c) && c.sender.timer.elapsed + ms >= c.sender.timer.rto && c.sender.timer.retransmissions < 8
    ensures var c' := c.Tick(ms);
            && Waiting(c') && c'.sender.initialRto == c.sender.initialRto && c'.sender.timer.elapsed == 0
            && c'.sender.timer.retransmissions == c.sender.timer.retransmissions + 1
  {
    var s := c.sender;
    WaitingActive(c);
    WaitingTicks(c, ms);
    WaitingTick(s, ms);
    FlushSendsNoRst(c.Elapse(ms), true);
    TimeoutIs(s.initialRto, s.timer.retransmissions + 1);
    DoubledIs(s.initialRto, s.timer.retransmissions + 1);
    DoubledGrows(s.initialRto, s.timer.retransmissions + 1);
  }

  lemma ShutdownGivesUp(c: Connection)
    requires c.Valid()
    ensures var d := c.UncleanShutdown().FlushBuffer(); Failed(d) && HasRst(d.segmentsOut)
  {
    var d := c.UncleanShutdown();
    assert d.segmentsOut[|c.segmentsOut|].header.rst;
    assert d.segmentsOut[|c.segmentsOut|] in d.segmentsOut;
    FlushKeepsRst(d);
  }

  /** It is the ninth time and the connection sends a RST. */
  lemma TickLast(c: Connection, ms: nat)
    requires Waiting(c) && c.sender.timer.elapsed + ms >= c.sender.timer.rto && c.sender.timer.retransmissions == 8
    ensures GaveUp(c.Tick(ms))
  {
    WaitingActive(c);
    WaitingTicks(c, ms);
    WaitingTick(c.sender, ms);
    ShutdownGivesUp(c.Elapse(ms));
  }

  /** One tick of a waiting connection. */
  lemma TickWaiting(c: Connection, ms: nat)
    requires Waiting(c)
    ensures var c', t, rt := c.Tick(ms), c.sender.timer, c.sender.initialRto;
            && (t.elapsed + ms < t.rto ==>
                  Waiting(c') && c'.sender.initialRto == rt && c'.sender.timer == t.(elapsed := t.elapsed + ms))
            && (t.elapsed + ms >= t.rto && t.retransmissions < 8 ==>
                  && Waiting(c') && c'.sender.initialRto == rt
                  && c'.sender.timer.elapsed == 0 && c'.sender.timer.retransmissions == t.retransmissions + 1)
            && (t.elapsed + ms >= t.rto && t.retransmissions == 8 ==> GaveUp(c'))
  {
    WaitingActive(c);
    if c.sender.timer.elapsed + ms < c.sender.timer.rto {
      TickEarly(c, ms);
    } else if c.sender.timer.retransmissions < 8 {
      TickAgain(c, ms);
    } else {
      TickLast(c, ms);
    }
  }

  // Once given up, always given up

  lemma ConnectAdds(c: Connection)
    requires ConnInv(c, true)
    ensures c.segmentsOut <= c.Connect().segmentsOut && c.Connect().receiver == c.receiver
    ensures c.Connect().sender.stream.error == c.sender.stream.error
  {
    FillAddsPlain(c.sender);
  }

  lemma GaveUpStays(c: Connection, act: Act)
    requires GaveUp(c) && MayDo(c, act)
    ensures GaveUp(Do(c, act))
  {
    assert !c.Active();
    if act.Connect? {
      var d := c.Connect();
      ConnectKeeps(c, true);
      ConnectAdds(c);
      var more := d.segmentsOut[|c.segmentsOut|..];
      assert d.segmentsOut == c.segmentsOut + more;
      Append(c.segmentsOut, more);
    }
  }

  // The account

  /** While the connection waits, the time is accounted for by the timeouts that have passed, the time since
      the last one, and less than one tick for each timeout. */
  ghost predicate Accounts(c: Connection, total: nat, d: nat)
  {
    var t, rt := c.sender.timer, c.sender.initialRto;
    var late := total - (Doubled(rt, t.retransmissions) - rt) - t.elapsed;
    0 <= late && late + t.retransmissions <= d * t.retransmissions
  }

  /** A timeout is noticed at most one tick late. */
  lemma AccountsAgain(d: nat, k: nat, late: int, over: nat, ms: nat)
    requires late + k <= d * k && over < ms <= d
    ensures late + over + (k + 1) <= d * (k + 1)
  {
    assert d * (k + 1) == d * k + d;
  }

  lemma AccountsTick(c: Connection, ms: nat, total: nat, d: nat)
    requires Waiting(c) && Accounts(c, total, d) && ms <= d && Waiting(c.Tick(ms))
    ensures Accounts(c.Tick(ms), total + ms, d)
  {
    WaitingActive(c);
    TickWaiting(c, ms);
    var t, rt := c.sender.timer, c.sender.initialRto;
    if t.elapsed + ms >= t.rto {
      if t.retransmissions < 8 {
        AccountsAgain(d, t.retransmissions, total - (t.rto - rt) - t.elapsed, t.elapsed + ms - t.rto, ms);
      }
    }
  }

  /** The connection is waiting, with the time accounted for, or it has given up after at least 511 times the
      initial timeout. */
  ghost predicate OnTime(c: Connection, total: nat, d: nat, rt: nat)
  {
    || (Waiting(c) && c.sender.initialRto == rt && Accounts(c, total, d))
    || (GaveUp(c) && total >= 511 * rt)
  }

  lemma TickOnTime(c: Connection, ms: nat, total: nat, d: nat, rt: nat)
    requires Waiting(c) && c.sender.initialRto == rt && Accounts(c, total, d) && ms <= d
    ensures OnTime(c.Tick(ms), total + ms, d, rt)
  {
    WaitingActive(c);
    TickWaiting(c, ms);
    if Waiting(c.Tick(ms)) {
      AccountsTick(c, ms, total, d);
    } else {
      NineDoublings(rt);
    }
  }

  lemma ActOnTime(c: Connection, act: Act, total: nat, d: nat, rt: nat)
    requires OnTime(c, total, d, rt) && MayDo(c, act) && NoNews(c, act) && (act.Tick? ==> act.ms <= d)
    ensures OnTime(Do(c, act), total + TimeOf(act), d, rt)
  {
    if GaveUp(c) {
      GaveUpStays(c, act);
    } else if act.Tick? {
      TickOnTime(c, act.ms, total, d, rt);
    } else {
      ActWaits(c, act);
    }
  }

  lemma {:induction false} RunOnTime(c: Connection, acts: seq<Act>, d: nat)
    requires Waiting(c) && c.sender.timer.elapsed == 0 && c.sender.timer.retransmissions == 0 && Quiet(c, acts, d)
    ensures OnTime(ActRun(c, acts), Elapsed(acts), d, c.sender.initialRto)
  {
    if acts != [] {
      var m := |acts| - 1;
      RunOnTime(c, acts[..m], d);
      ActOnTime(ActRun(c, acts[..m]), acts[m], Elapsed(acts[..m]), d, c.sender.initialRto);
    }
  }

  lemma EarlyTotal(rt: nat, k: nat, elapsed: nat, late: int, d: nat)
    requires k <= 8 && elapsed < Doubled(rt, k) && late + k <= d * k
    ensures Doubled(rt, k) - rt + elapsed + late < 511 * rt + 8 * d
  {
    DoubledMonotone(rt, k + 1, 9);
    NineDoublings(rt);
    assert d * k <= d * 8;
  }

  lemma WaitingIsEarly(c: Connection, total: nat, d: nat)
    requires Waiting(c) && Accounts(c, total, d)
    ensures total < 511 * c.sender.initialRto + 8 * d
  {
    WaitingActive(c);
    var t, rt := c.sender.timer, c.sender.initialRto;
    EarlyTotal(rt, t.retransmissions, t.elapsed, total - (Doubled(rt, t.retransmissions) - rt) - t.elapsed, d);
  }

  /** The give-up bound. From the start of the timer, with something outstanding, an open window and a positive
      timeout, and whatever else happens as long as nothing new is acknowledged, no RST goes out before 511 times
      the initial timeout, and one has gone out by 511 times the initial timeout plus nine ticks. */
  lemma GiveUpBound(c: Connection, peerSyn: bool, acts: seq<Act>, d: nat)
    requires ConnInv(c, peerSyn) && !Failed(c) && !HasRst(c.segmentsOut)
    requires c.sender.outstanding != [] && c.sender.wdnSz > 0 && c.sender.initialRto > 0
    requires c.sender.timer.elapsed == 0 && c.sender.timer.retransmissions == 0 && Quiet(c, acts, d)
    ensures var c', rt := ActRun(c, acts), c.sender.initialRto;
            && (HasRst(c'.segmentsOut) ==> Elapsed(acts) >= 511 * rt)
            && (Elapsed(acts) >= 511 * rt + 9 * d ==> HasRst(c'.segmentsOut))
  {
    ConnInvGrows(c, peerSyn, true);
    RunOnTime(c, acts, d);
    var c' := ActRun(c, acts);
    if Waiting(c') { WaitingIsEarly(c', Elapsed(acts), d); }
  }
}
