/** When a connection lingers, and how long, after both streams have ended. */
module Linger {
  import opened Machine
  import opened Segments
  import TcpSender
  import opened SenderInvariant
  import opened SenderSteps
  import opened TcpConnection
  import opened ConnectionInvariant
  import opened ConnectionRuns

  /** Both streams have ended and everything is acknowledged. */
  predicate Done(c: Connection)
    requires c.Valid()
  {
    c.receiver.asm.out.Eof() && c.sender.stream.Eof() && c.sender.bytesInFlight == 0
  }

  // How long

  ghost predicate Idle(c: Connection)
  {
    && c.Valid() && !Failed(c) && Done(c)
    && !c.sender.timer.on && c.sender.timer.retransmissions <= MAX_RETX_ATTEMPTS
  }

  /** With everything acknowledged, the timer is off and no retransmissions count. */
  lemma DoneIsIdle(c: Connection, peerSyn: bool)
    requires ConnInv(c, peerSyn) && !Failed(c) && Done(c)
    ensures Idle(c)
  {
    var s := c.sender;
    TilesOrdered(s.outstanding, Una(s), s.nextSeqno, s.isn, s.stream.history, s.finSent);
  }

  /** With the stream ended and drained the FIN is out, or the usable window is closed; so filling the window again
      sends nothing. */
  predicate Settled(s: Sender)
    requires s.stream.Valid()
  {
    s.stream.Eof() ==> s.syn && (s.finSent || s.recvWdnSz == 0)
  }

  lemma TickIdles(c: Connection, ms: nat)
    requires Idle(c)
    ensures var c' := c.Tick(ms);
            && Idle(c') && c'.rtTimeout == c.rtTimeout && c'.linger == c.linger
            && c'.sender == c.sender.(segmentsOut := c'.sender.segmentsOut)
            && c'.sinceLast == if !c.linger || c.sinceLast >= 10 * c.rtTimeout then c.sinceLast else c.sinceLast + ms
  {
  }

  /** No segment arrives, and the application adds nothing to its stream. */
  predicate Rests(c: Connection, act: Act)
    requires c.Valid()
  {
    !act.Receive? && (act.Write? ==> Min(|act.data|, c.sender.stream.Room()) == 0)
  }

  /** The connection but for its queues and the flag that it has connected. */
  ghost predicate Unmoved(c: Connection, c': Connection)
  {
    && c'.sender == c.sender.(segmentsOut := c'.sender.segmentsOut) && c'.receiver == c.receiver
    && c'.rtTimeout == c.rtTimeout && c'.linger == c.linger && c'.sinceLast == c.sinceLast
  }

  lemma WriteRests(c: Connection, data: seq<byte>)
    requires Idle(c) && Settled(c.sender) && Rests(c, Write(data))
    ensures Unmoved(c, c.Write(data))
  {
    assert c.sender.stream.Write(data) == c.sender.stream;
    TcpSender.FillsNothing(c.sender);
  }

  lemma EndInputRests(c: Connection)
    requires Idle(c) && Settled(c.sender)
    ensures Unmoved(c, c.EndInputStream())
  {
    assert c.sender.stream.(ended := true) == c.sender.stream;
    TcpSender.FillsNothing(c.sender);
  }

  lemma ConnectRests(c: Connection)
    requires Idle(c) && Settled(c.sender)
    ensures Unmoved(c, c.Connect())
  {
    TcpSender.FillsNothing(c.sender);
  }

  lemma RestIdles(c: Connection, act: Act)
    requires Idle(c) && Rests(c, act) && (act.Tick? || act.Read? || Settled(c.sender))
    ensures var c' := Do(c, act);
            && Idle(c') && c'.rtTimeout == c.rtTimeout && c'.linger == c.linger
            && (Settled(c.sender) ==> Settled(c'.sender))
            && c'.sinceLast ==
                 if !c.linger || c.sinceLast >= 10 * c.rtTimeout then c.sinceLast else c.sinceLast + TimeOf(act)
  {
    match act
    case Write(data) => WriteRests(c, data);
    case EndInput => EndInputRests(c);
    case Connect => ConnectRests(c);
    case Tick(ms) => TickIdles(c, ms);
    case Read(n) =>
  }

  ghost predicate Resting(c: Connection, acts: seq<Act>)
    requires c.Valid()
  {
    acts == [] || (Resting(c, acts[..|acts| - 1]) && Rests(ActRun(c, acts[..|acts| - 1]), acts[|acts| - 1]))
  }

  /** The acts that do not fill the window. */
  predicate OnlyWaits(acts: seq<Act>)
  {
    forall act <- acts :: act.Tick? || act.Read?
  }

  lemma {:induction false} RunIdles(c: Connection, acts: seq<Act>)
    requires Idle(c) && Resting(c, acts) && (Settled(c.sender) || OnlyWaits(acts))
    ensures var c' := ActRun(c, acts);
            && Idle(c') && c'.rtTimeout == c.rtTimeout && c'.linger == c.linger
            && (Settled(c.sender) ==> Settled(c'.sender))
            && (!c.linger || c'.sinceLast == c.sinceLast + Elapsed(acts) ||
                10 * c.rtTimeout <= c'.sinceLast <= c.sinceLast + Elapsed(acts))
  {
    if acts != [] {
      var m := |acts| - 1;
      assert acts[m] in acts;
      RunIdles(c, acts[..m]);
      RestIdles(ActRun(c, acts[..m]), acts[m]);
    }
  }

  /** A connection that has nothing left to do and hears nothing stays active, if it lingers, for exactly ten
      times the retransmission timeout since the last segment it received, whatever the application calls meanwhile
      without adding to its stream. */
  lemma LingerBound(c: Connection, peerSyn: bool, acts: seq<Act>)
    requires ConnInv(c, peerSyn) && !Failed(c) && Done(c)
    requires Resting(c, acts) && (Settled(c.sender) || OnlyWaits(acts))
    ensures ActRun(c, acts).Active() <==> c.linger && c.sinceLast + Elapsed(acts) < 10 * c.rtTimeout
  {
    DoneIsIdle(c, peerSyn);
    RunIdles(c, acts);
  }

  /** An active connection counts the time from the last segment it received. */
  lemma ReceiveRestarts(c: Connection, seg: TcpSegment)
    requires c.Valid() && c.Active()
    ensures c.SegmentReceived(seg).sinceLast == 0
  {
  }

  /** So it stays active, if it lingers, for exactly ten timeouts after the segment that leaves it nothing to do. */
  lemma LingersFromLast(c: Connection, seg: TcpSegment, peerSyn: bool, acts: seq<Act>)
    requires c.Valid() && c.Active()
    requires var c' := c.SegmentReceived(seg);
             && ConnInv(c', peerSyn) && !Failed(c') && Done(c')
             && Resting(c', acts) && (Settled(c'.sender) || OnlyWaits(acts))
    ensures var c' := c.SegmentReceived(seg);
            ActRun(c', acts).Active() <==> c'.linger && Elapsed(acts) < 10 * c'.rtTimeout
  {
    ReceiveRestarts(c, seg);
    LingerBound(c.SegmentReceived(seg), peerSyn, acts);
  }

  // When

  /** An endpoint whose peer has finished before it does not linger, and one that does not linger has seen its
      peer finish or has failed. */
  ghost predicate LingerOk(c: Connection)
  {
    && c.Valid()
    && (c.receiver.asm.out.ended && !c.sender.stream.Eof() ==> !c.linger)
    && (!c.linger ==> c.receiver.asm.out.ended || Failed(c))
  }

  /** The application does not write after its stream has ended and drained; the network may deliver anything. */
  ghost predicate Closes(c: Connection, acts: seq<Act>)
    requires c.Valid()
  {
    acts == [] ||
    var m := |acts| - 1;
    Closes(c, acts[..m]) && (acts[m].Write? ==> !ActRun(c, acts[..m]).sender.stream.Eof())
  }

  /** What is left of the outgoing stream only gets less, apart from writes. */
  ghost predicate Drains(s: Sender, s': Sender)
    requires s.stream.Valid() && s'.stream.Valid()
  {
    (s.stream.Eof() ==> s'.stream.Eof()) && (s.stream.error ==> s'.stream.error)
  }

  lemma {:induction false} LoopDrains(s: Sender, segment: TcpSegment)
    requires s.stream.Valid()
    ensures Drains(s, s.FillLoop(segment).0)
    decreases s.stream.Size()
  {
    if s.stream.Size() > 0 && s.recvWdnSz > 0 {
      var (t, seg) := s.FillOne(segment);
      LoopDrains(t, seg);
    }
  }

  lemma FillDrains(s: Sender)
    requires s.stream.Valid()
    ensures Drains(s, s.FillWindow())
  {
    if s.syn { LoopDrains(s, EMPTY_SEGMENT); }
  }

  lemma AckDrains(s: Sender, ackno: u32, window: u16)
    requires s.stream.Valid()
    ensures Drains(s, s.AckReceived(ackno, window))
  {
    AckReceivedIs(s, ackno, window);
    FillDrains(s.Acknowledge(AckAbs(s, ackno), window));
  }

  /** What an operation other than the reception of a segment may do to the connection. */
  ghost predicate Settles(c: Connection, c': Connection)
    requires c.Valid() && c'.Valid()
  {
    && Drains(c.sender, c'.sender) && c'.receiver.asm.out.ended == c.receiver.asm.out.ended
    && (c.receiver.asm.out.error ==> c'.receiver.asm.out.error)
    && (c'.linger == c.linger || (!c'.linger && Failed(c')))
  }

  lemma WriteSettles(c: Connection, data: seq<byte>)
    requires c.Valid() && !c.sender.stream.Eof()
    ensures Settles(c, c.Write(data))
  {
    FillDrains(c.sender.(stream := c.sender.stream.Write(data)));
  }

  lemma EndInputSettles(c: Connection)
    requires c.Valid()
    ensures Settles(c, c.EndInputStream())
  {
    FillDrains(c.sender.(stream := c.sender.stream.(ended := true)));
  }

  lemma ConnectSettles(c: Connection)
    requires c.Valid()
    ensures Settles(c, c.Connect())
  {
    FillDrains(c.sender);
  }

  lemma CheckSettles(c: Connection)
    requires c.Valid()
    ensures Settles(c, c.CheckRetransmissions())
  {
  }

  lemma TickSettles(c: Connection, ms: nat)
    requires c.Valid()
    ensures Settles(c, c.Tick(ms))
  {
    CheckSettles(c.Elapse(ms));
  }

  lemma LocalSettles(c: Connection, act: Act)
    requires c.Valid() && !act.Receive? && (act.Write? ==> !c.sender.stream.Eof())
    ensures Settles(c, Do(c, act))
  {
    match act
    case Write(data) => WriteSettles(c, data);
    case EndInput => EndInputSettles(c);
    case Connect => ConnectSettles(c);
    case Tick(ms) => TickSettles(c, ms);
    case Read(n) =>
  }

  lemma EndStays(c: Connection, seg: TcpSegment)
    requires c.Valid()
    ensures c.receiver.asm.out.ended ==> c.receiver.SegmentReceived(seg).asm.out.ended
    ensures c.receiver.SegmentReceived(seg).asm.out.error == c.receiver.asm.out.error
  {
  }

  lemma AbsorbDrains(c: Connection, seg: TcpSegment)
    requires c.Valid()
    ensures Drains(c.sender, c.Absorb(seg).sender) && c.Absorb(seg).linger == c.linger
  {
    AckDrains(c.sender, seg.header.ackno, seg.header.win);
  }

  lemma ReplyDrains(d: Connection, seg: TcpSegment)
    requires d.Valid()
    ensures var e := d.Answer(seg);
            e.Valid() && Drains(d.sender, e.sender) && e.receiver == d.receiver && e.linger == d.linger
  {
    FillDrains(d.sender);
  }

  lemma AnswerDrains(c: Connection, seg: TcpSegment)
    requires c.Valid()
    ensures var d := c.Absorb(seg);
            var e := d.Answer(seg);
            e.Valid() && Drains(c.sender, e.sender) && e.receiver == d.receiver && e.linger == c.linger
  {
    AbsorbDrains(c, seg);
    ReplyDrains(c.Absorb(seg), seg);
  }

  lemma ReceiveLingers(c: Connection, seg: TcpSegment)
    requires LingerOk(c)
    ensures LingerOk(c.SegmentReceived(seg)) && (!c.linger ==> !c.SegmentReceived(seg).linger)
  {
    if c.Active() && !seg.header.rst {
      ReceiveActive(c, seg);
      EndStays(c, seg);
      AnswerDrains(c.(sinceLast := 0), seg);
    }
  }

  lemma LocalLingers(c: Connection, act: Act)
    requires LingerOk(c) && !act.Receive? && (act.Write? ==> !c.sender.stream.Eof())
    ensures LingerOk(Do(c, act)) && (!c.linger ==> !Do(c, act).linger)
  {
    LocalSettles(c, act);
  }

  lemma DoLingers(c: Connection, act: Act)
    requires LingerOk(c) && (act.Write? ==> !c.sender.stream.Eof())
    ensures LingerOk(Do(c, act)) && (!c.linger ==> !Do(c, act).linger)
  {
    match act
    case Receive(seg) => ReceiveLingers(c, seg);
    case _ => LocalLingers(c, act);
  }

  lemma {:induction false} RunLingers(rt: u16, recv: nat, send: nat, isn: u32, acts: seq<Act>)
    requires Closes(NewConnection(rt, recv, send, isn), acts)
    ensures LingerOk(ActRun(NewConnection(rt, recv, send, isn), acts))
  {
    if acts != [] {
      var m := |acts| - 1;
      RunLingers(rt, recv, send, isn, acts[..m]);
      DoLingers(ActRun(NewConnection(rt, recv, send, isn), acts[..m]), acts[m]);
    }
  }

  /** Whoever finishes last need not wait: if the peer's stream ended before ours was drained, the connection is
      over as soon as everything is acknowledged. */
  lemma LastToCloseStops(c: Connection, acts: seq<Act>)
    requires LingerOk(c) && c.receiver.asm.out.ended && !c.sender.stream.Eof() && Closes(c, acts)
    ensures Done(ActRun(c, acts)) ==> !ActRun(c, acts).Active()
  {
    NeverLingers(c, acts);
  }

  lemma {:induction false} NeverLingers(c: Connection, acts: seq<Act>)
    requires LingerOk(c) && !c.linger && Closes(c, acts)
    ensures LingerOk(ActRun(c, acts)) && !ActRun(c, acts).linger
  {
    if acts != [] {
      var m := |acts| - 1;
      NeverLingers(c, acts[..m]);
      DoLingers(ActRun(c, acts[..m]), acts[m]);
    }
  }
}
