/** What a clean end of a connection means: all bytes have arrived both ways; and exactly when the FIN has too. */
module CleanClose {
  import opened Machine
  import opened Segments
  import TcpSender
  import opened SenderInvariant
  import opened SenderSteps
  import opened SenderProgress
  import opened SenderEdges
  import opened TcpConnection
  import opened ConnectionInvariant
  import opened ConnectionRuns
  import opened Linger
  import opened Duplex
  import opened DuplexAcks

  /** Everything is sent and acknowledged, except that there was no FIN. */
  predicate Unfinished(s: Sender)
    requires s.stream.Valid()
  {
    s.stream.Eof() && s.bytesInFlight == 0 && !s.finSent
  }

  /** Nothing is outstanding and nothing waits to be sent, and yet the usable window is closed. */
  predicate Stalled(c: Connection)
    requires c.Valid()
  {
    var s := c.sender;
    c.Active() && s.syn && !s.finSent && s.bytesInFlight == 0 && s.stream.Size() == 0 && s.recvWdnSz == 0
  }

  // Sender

  /** Filling the window leaves the stream unfinished only if it does nothing, for want of window. */
  lemma FillFinishes(s: Sender)
    requires Inv(s)
    ensures Unfinished(s.FillWindow()) ==> Unfinished(s) && s.syn && s.recvWdnSz == 0
    ensures Settled(s.FillWindow())
  {
    FillWindowInv(s);
    FillProgress(s);
    FillTakes(s);
  }

  lemma AcknowledgeFinishes(s: Sender, abs: u64, window: u16)
    requires Inv(s) && abs <= s.nextSeqno <= abs + window
    requires var t := s.Acknowledge(abs, window); t.bytesInFlight == 0 && t.recvWdnSz == 0
    ensures s.bytesInFlight == 0
  {
    AcknowledgeWindow(s, abs, window);
    ForgetTiles(s.Noted(abs, window), abs);
  }

  /** No acknowledgment leaves the stream unfinished, if it was not. */
  lemma AckFinishes(s: Sender, ackno: u32, window: u16)
    requires Inv(s) && s.syn && Settled(s)
    ensures Unfinished(s.AckReceived(ackno, window)) ==> Unfinished(s)
    ensures Settled(s.AckReceived(ackno, window))
  {
    var abs := AckAbs(s, ackno);
    AckReceivedIs(s, ackno, window);
    if abs <= s.nextSeqno <= abs + window {
      var t := s.Acknowledge(abs, window);
      AcknowledgeInv(s, abs, window);
      FillFinishes(t);
      if Unfinished(t.FillWindow()) { AcknowledgeFinishes(s, abs, window); }
    }
  }

  // Connection

  /** An act of a connection that leaves no FIN behind. */
  ghost predicate Finishes(s: Sender, s': Sender)
    requires s.stream.Valid() && s'.stream.Valid()
  {
    (Unfinished(s') ==> Unfinished(s)) && Settled(s')
  }

  lemma WriteFinishes(c: Connection, data: seq<byte>, peerSyn: bool)
    requires ConnInv(c, peerSyn) && MayWrite(c.sender, data) && Settled(c.sender)
    ensures Finishes(c.sender, c.Write(data).sender)
  {
    if c.Active() {
      WriteInv(c.sender, data);
      FillFinishes(c.sender.(stream := c.sender.stream.Write(data)));
    }
  }

  lemma ConnectFinishes(c: Connection, peerSyn: bool)
    requires ConnInv(c, peerSyn) && Settled(c.sender)
    ensures Finishes(c.sender, c.Connect().sender)
  {
    FillFinishes(c.sender);
  }

  /** Only the queue, the timer and the error flag may differ. */
  ghost predicate Alike(s: Sender, s': Sender)
  {
    && s'.stream == s.stream.(error := s'.stream.error) && s'.bytesInFlight == s.bytesInFlight
    && s'.syn == s.syn && s'.finSent == s.finSent && s'.recvWdnSz == s.recvWdnSz
  }

  lemma CheckAlike(c: Connection)
    requires c.Valid()
    ensures Alike(c.sender, c.CheckRetransmissions().sender)
  {
  }

  lemma TickFinishes(c: Connection, ms: nat)
    requires c.Valid() && Settled(c.sender)
    ensures Finishes(c.sender, c.Tick(ms).sender)
  {
    assert Alike(c.sender, c.Elapse(ms).sender);
    CheckAlike(c.Elapse(ms));
    assert c.Active() ==> Alike(c.sender, c.Tick(ms).sender);
  }

  lemma SendReplyAlike(d: Connection)
    requires d.Valid()
    ensures d.SendReply().Valid() && Alike(d.sender, d.SendReply().sender)
  {
  }

  lemma AnswerFinishes(d: Connection, seg: TcpSegment)
    requires Inv(d.sender) && d.Valid() && Settled(d.sender)
    ensures d.Answer(seg).Valid() && Finishes(d.sender, d.Answer(seg).sender)
  {
    if seg.Length() > 0 {
      FillFinishes(d.sender);
      SendReplyAlike(d.(sender := d.sender.FillWindow()));
      SendReplyAlike(d.(sender := d.sender.SendEmptySegment()));
    } else {
      assert Alike(d.sender, d.FlushBuffer().sender);
    }
  }

  lemma AbsorbFinishes(c: Connection, seg: TcpSegment, peerSyn: bool)
    requires ConnInv(c, peerSyn) && Acceptable(c, seg, peerSyn) && Settled(c.sender) && !seg.header.rst
    ensures Finishes(c.sender, c.Absorb(seg).sender) && Inv(c.Absorb(seg).sender)
  {
    AbsorbKeeps(c, seg, peerSyn);
    if seg.header.ack { AckFinishes(c.sender, seg.header.ackno, seg.header.win); }
  }

  lemma FinishesOn(s: Sender, t: Sender, u: Sender)
    requires s.stream.Valid() && t.stream.Valid() && u.stream.Valid() && Finishes(s, t) && Finishes(t, u)
    ensures Finishes(s, u)
  {
  }

  lemma TakenFinishes(b: Connection, seg: TcpSegment, peerSyn: bool)
    requires ConnInv(b, peerSyn) && Acceptable(b, seg, peerSyn) && Settled(b.sender) && !seg.header.rst
    ensures var e := b.Absorb(seg).Answer(seg); e.Valid() && Finishes(b.sender, e.sender)
  {
    AbsorbFinishes(b, seg, peerSyn);
    AnswerFinishes(b.Absorb(seg), seg);
    FinishesOn(b.sender, b.Absorb(seg).sender, b.Absorb(seg).Answer(seg).sender);
  }

  lemma ReceiveFinishes(c: Connection, seg: TcpSegment, peerSyn: bool)
    requires ConnInv(c, peerSyn) && Acceptable(c, seg, peerSyn) && Settled(c.sender)
    ensures Finishes(c.sender, c.SegmentReceived(seg).sender)
  {
    if c.Active() && !seg.header.rst {
      TakenFinishes(c.(sinceLast := 0), seg, peerSyn);
      ReceiveActive(c, seg);
    }
  }

  /** Ending the stream leaves it unfinished exactly if the connection is stalled. */
  lemma EndInputFinishes(c: Connection, peerSyn: bool)
    requires ConnInv(c, peerSyn) && c.Active()
    ensures Unfinished(c.EndInputStream().sender) <==> Stalled(c)
    ensures Settled(c.EndInputStream().sender)
  {
    var s := c.sender.(stream := c.sender.stream.(ended := true));
    CloseInv(c.sender);
    FillFinishes(s);
    if Stalled(c) { TcpSender.FillsNothing(s); }
  }

  lemma DoFinishes(c: Connection, act: Act, peerSyn: bool)
    requires ConnInv(c, peerSyn) && MayDo(c, act) && Settled(c.sender)
    requires act.Receive? ==> Acceptable(c, act.seg, peerSyn)
    requires act.EndInput? ==> !Stalled(c)
    ensures Finishes(c.sender, Do(c, act).sender)
  {
    match act
    case Write(data) => WriteFinishes(c, data, peerSyn);
    case EndInput => if c.Active() { EndInputFinishes(c, peerSyn); }
    case Connect => ConnectFinishes(c, peerSyn);
    case Tick(ms) => TickFinishes(c, ms);
    case Receive(seg) => ReceiveFinishes(c, seg, peerSyn);
    case Read(_) =>
  }

  // Runs

  /** In no step does an endpoint end its stream while it is stalled. */
  ghost predicate Prompt(p: Pair, steps: seq<Step>)
    requires p.Valid()
  {
    steps == [] ||
    var q, step := Run(p, steps[..|steps| - 1]), steps[|steps| - 1];
    Prompt(p, steps[..|steps| - 1]) && (step.act.EndInput? ==> !Stalled(if step.byA then q.a else q.b))
  }

  /** The stream is not unfinished, nor will filling the window send anything more. */
  ghost predicate Finished(s: Sender)
  {
    s.stream.Valid() && !Unfinished(s) && Settled(s)
  }

  lemma StepFinishes(x: Connection, y: Connection, act: Act)
    requires ConnInv(x, y.sender.syn) && ConnInv(y, x.sender.syn) && Enabled(x, y, act) && Finished(x.sender)
    requires act.EndInput? ==> !Stalled(x)
    ensures Finished(Do(x, act).sender)
  {
    if act.Receive? { DeliveredIsAcceptable(x, y, act.seg); }
    DoFinishes(x, act, y.sender.syn);
  }

  lemma {:induction false} RunFinishes(p: Pair, steps: seq<Step>)
    requires Endpoints(p) && Finished(p.a.sender) && Finished(p.b.sender) && Legal(p, steps) && Prompt(p, steps)
    ensures Finished(Run(p, steps).a.sender) && Finished(Run(p, steps).b.sender)
  {
    if steps != [] {
      var before, step := steps[..|steps| - 1], steps[|steps| - 1];
      var q := Run(p, before);
      RunEndpoints(p, before);
      RunFinishes(p, before);
      if step.byA { StepFinishes(q.a, q.b, step.act); } else { StepFinishes(q.b, q.a, step.act); }
    }
  }

  /** The FIN goes out: in every run, however long, in which no stalled endpoint ends its stream, whoever has sent
      everything and has everything acknowledged has sent the FIN. */
  lemma FinGoesOut(p: Pair, rtA: u16, recvA: nat, sendA: nat, isnA: u32,
                   rtB: u16, recvB: nat, sendB: nat, isnB: u32, steps: seq<Step>)
    requires p == NewPair(rtA, recvA, sendA, isnA, rtB, recvB, sendB, isnB)
    requires Legal(p, steps) && Prompt(p, steps)
    ensures !Unfinished(Run(p, steps).a.sender) && !Unfinished(Run(p, steps).b.sender)
  {
    NewInv(sendA, rtA, isnA);
    NewInv(sendB, rtB, isnB);
    RunFinishes(p, steps);
  }

  // The condition is exact

  /** The connection is over and its FIN is not out, now and for ever. */
  ghost predicate Lost(c: Connection)
    requires c.Valid()
  {
    forall acts :: !ActRun(c, acts).Active() && !ActRun(c, acts).sender.finSent
  }

  /** Over without an error, unfinished, and with nothing that could still send the FIN. */
  ghost predicate Silent(c: Connection)
  {
    c.Valid() && !c.Active() && !Failed(c) && Unfinished(c.sender) && Settled(c.sender)
  }

  lemma StaysSilent(c: Connection, act: Act)
    requires Silent(c)
    ensures Silent(Do(c, act))
  {
    TcpSender.FillsNothing(c.sender);
  }

  lemma {:induction false} RunSilent(c: Connection, acts: seq<Act>)
    requires Silent(c)
    ensures Silent(ActRun(c, acts))
  {
    if acts != [] {
      RunSilent(c, acts[..|acts| - 1]);
      StaysSilent(ActRun(c, acts[..|acts| - 1]), acts[|acts| - 1]);
    }
  }

  /** If the peer's stream has been read to its end and the connection does not linger, ending our stream loses the
      FIN for good if and only if the connection is stalled. */
  lemma FinLostIff(c: Connection, peerSyn: bool)
    requires ConnInv(c, peerSyn) && c.Active() && !c.linger && c.receiver.asm.out.Eof()
    ensures Lost(c.EndInputStream()) <==> Stalled(c)
  {
    var c' := c.EndInputStream();
    EndInputFinishes(c, peerSyn);
    EndInputKeeps(c, peerSyn);
    if Stalled(c) {
      TcpSender.FillsNothing(c.sender.(stream := c.sender.stream.(ended := true)));
      forall acts ensures !ActRun(c', acts).Active() && !ActRun(c', acts).sender.finSent { RunSilent(c', acts); }
    }
    if Lost(c') {
      FillTakes(c.sender.(stream := c.sender.stream.(ended := true)));
      assert !ActRun(c', []).Active() && !ActRun(c', []).sender.finSent;
    }
  }

  // Both streams

  /** If `x` is over without an error, each output is the whole of the other's stream, and that of `y` has ended exactly
      if the FIN of `x` is out. */
  ghost predicate CleanlyClosed(x: Connection, y: Connection)
    requires x.Valid()
  {
    !x.Active() && !Failed(x) ==>
      && x.receiver.asm.out.history == y.sender.stream.history && y.sender.finSent
      && y.receiver.asm.out.history == x.sender.stream.history
      && (y.receiver.asm.out.ended <==> x.sender.finSent)
  }

  lemma WholeCloses(x: Connection, y: Connection)
    requires Whole(x, y) && Whole(y, x) && x.sender.nextSeqno < TWO31 && y.sender.nextSeqno < TWO31
    ensures CleanlyClosed(x, y)
  {
    SoundAcks(x, y);
    SoundAcks(y, x);
    var s := x.sender;
    TilesOrdered(s.outstanding, Una(s), s.nextSeqno, s.isn, s.stream.history, s.finSent);
  }

  /** Clean close: in every run as in `DuplexAckSoundness`, an endpoint that is over without an error has delivered its
      whole stream and has received the whole of the other's; and if no stalled endpoint has ended its stream, the
      other's output has ended as well. */
  lemma DuplexClose(p: Pair, rtA: u16, recvA: nat, sendA: nat, isnA: u32,
                    rtB: u16, recvB: nat, sendB: nat, isnB: u32, steps: seq<Step>)
    requires p == NewPair(rtA, recvA, sendA, isnA, rtB, recvB, sendB, isnB)
    requires Legal(p, steps) && Disciplined(p, steps)
    requires Run(p, steps).a.sender.nextSeqno < TWO31 && Run(p, steps).b.sender.nextSeqno < TWO31
    ensures var q := Run(p, steps);
            && CleanlyClosed(q.a, q.b) && CleanlyClosed(q.b, q.a)
            && (Prompt(p, steps) && !q.a.Active() && !Failed(q.a) ==> q.b.receiver.asm.out.ended)
            && (Prompt(p, steps) && !q.b.Active() && !Failed(q.b) ==> q.a.receiver.asm.out.ended)
  {
    NewWhole(p, rtA, recvA, sendA, isnA, rtB, recvB, sendB, isnB);
    RunSound(p, steps);
    WholeCloses(Run(p, steps).a, Run(p, steps).b);
    WholeCloses(Run(p, steps).b, Run(p, steps).a);
    if Prompt(p, steps) { FinGoesOut(p, rtA, recvA, sendA, isnA, rtB, recvB, sendB, isnB, steps); }
  }
}
