/** What leaves a connection: everything it cuts, every answer, and every retransmission. */
module Departures {
  import opened Machine
  import opened Segments
  import opened TcpSender
  import opened SenderInvariant
  import opened SenderSteps
  import opened SenderLimits
  import opened SenderEdges
  import opened TcpConnection
  import opened ConnectionInvariant
  import opened ConnectionRuns
  import opened Handshakes
  import opened LateConnect
  import opened Duplex

  // Answers

  /** The window is open and there is a byte or a FIN to send, or the SYN is not out. */
  predicate HasToSend(s: Sender)
    requires s.stream.Valid()
  {
    !s.syn || (s.recvWdnSz > 0 && (s.stream.Size() > 0 || (s.stream.ended && !s.finSent)))
  }

  lemma FillSendsIff(s: Sender)
    requires s.stream.Valid()
    ensures s.segmentsOut <= s.FillWindow().segmentsOut
    ensures |s.FillWindow().segmentsOut| > |s.segmentsOut| <==> HasToSend(s)
  {
    FillAddsSegments(s);
    if s.syn && s.stream.Size() > 0 && s.recvWdnSz > 0 {
      var (t, seg) := s.FillOne(EMPTY_SEGMENT);
      LoopAddsSegments(t, seg);
    }
  }

  /** The segment is one that `segment_received` answers with what the window-filling loop has to send. */
  predicate OpensPassively(c: Connection, seg: TcpSegment)
  {
    seg.header.syn && !seg.header.ack && !c.initiator
  }

  /** What an answer says: the ACK flag, the current number if there is one, and the window in sixteen bits. */
  ghost predicate Acknowledges(seg: TcpSegment, r: Receiver)
    requires r.Valid()
  {
    && seg.header.ack && !seg.header.rst && (r.syn ==> seg.header.ackno == r.ack)
    && seg.header.win == Min(r.WindowSize(), 65535)
  }

  lemma SendReplyIs(d: Connection)
    requires d.Valid() && d.sender.segmentsOut != [] && !d.sender.segmentsOut[0].header.rst
    ensures var e := d.SendReply();
            |e.segmentsOut| == |d.segmentsOut| + 1 && d.segmentsOut <= e.segmentsOut &&
            Acknowledges(e.segmentsOut[|d.segmentsOut|], d.receiver)
  {
  }

  lemma ReplyIs(d: Connection, seg: TcpSegment, peerSyn: bool)
    requires Sends(d, peerSyn)
    ensures var e := d.Reply(seg);
            if OpensPassively(d, seg) && d.sender.segmentsOut == [] && !HasToSend(d.sender)
            then e.segmentsOut == d.segmentsOut
            else && |e.segmentsOut| == |d.segmentsOut| + 1 && d.segmentsOut <= e.segmentsOut
                 && Acknowledges(e.segmentsOut[|d.segmentsOut|], d.receiver)
  {
    if OpensPassively(d, seg) {
      var s := d.sender.FillWindow();
      FillSendsIff(d.sender);
      FillAddsPlain(d.sender);
      if s.segmentsOut != [] {
        assert s.segmentsOut[0] in s.segmentsOut;
        SendReplyIs(d.(sender := s));
      }
    } else {
      var s := d.sender.SendEmptySegment();
      assert s.segmentsOut[0] in s.segmentsOut;
      SendReplyIs(d.(sender := s));
    }
  }

  /** Every segment that takes up sequence space is answered at once, by one segment with the current number and
      window, if and only if it is not a first SYN to a passive endpoint that has nothing to send. */
  lemma AnsweredIff(c: Connection, seg: TcpSegment, peerSyn: bool)
    requires ConnInv(c, peerSyn) && Acceptable(c, seg, peerSyn) && c.Active() && !seg.header.rst && seg.Length() > 0
    ensures var c' := c.SegmentReceived(seg);
            if OpensPassively(c, seg) && c.sender.segmentsOut == [] && !HasToSend(c.sender)
            then c'.segmentsOut == c.segmentsOut
            else && |c'.segmentsOut| == |c.segmentsOut| + 1 && c.segmentsOut <= c'.segmentsOut
                 && Acknowledges(c'.segmentsOut[|c.segmentsOut|], c'.receiver)
  {
    var b := c.(sinceLast := 0);
    AbsorbKeeps(b, seg, peerSyn);
    AnswerKeeps(b.Absorb(seg), seg, peerSyn);
    ReplyIs(b.Absorb(seg), seg, peerSyn);
    ReceiveActive(c, seg);
  }

  /** The exception is reachable: a passive endpoint that has answered the SYN does not answer it again. */
  lemma SecondSynUnanswered(u: Setup)
    requires u.cap > 0
    ensures Leads(u, Opening2(u) + [Step(false, Receive(Syn(u.isnA)))], Pair(A2(u), B3(u)))
    ensures B3(u).SegmentReceived(Syn(u.isnA)).segmentsOut == B3(u).segmentsOut
  {
    AfterSyn(u);
    FillsNothing(B3(u).sender);
    assert B3(u).Absorb(Syn(u.isnA)) == B3(u);
  }

  /** A segment that takes up none sends what waits, with the current number and window, and leaves nothing waiting. */
  lemma PureAckFlushes(c: Connection, seg: TcpSegment)
    requires c.Valid() && c.Active() && !seg.header.rst && seg.Length() == 0
    ensures var c', d := c.SegmentReceived(seg), c.Absorb(seg);
            && c'.sender.segmentsOut == []
            && c'.segmentsOut == c.segmentsOut + StampAll(d.sender.segmentsOut, c'.receiver)
  {
    ReceiveActive(c, seg);
  }

  // Everything goes out

  /** Every segment stored for retransmission has gone out or waits in the queue. */
  ghost predicate Stored(c: Connection)
  {
    c.Valid() && forall o <- c.sender.outstanding :: IsSent(o.seg, c.segmentsOut + c.sender.segmentsOut)
  }

  ghost predicate IsSent(seg: TcpSegment, segs: seq<TcpSegment>)
  {
    exists q <- segs :: SameContent(seg, q)
  }

  lemma SentStill(seg: TcpSegment, segs: seq<TcpSegment>, segs': seq<TcpSegment>)
    requires IsSent(seg, segs) && forall q <- segs :: IsSent(q, segs')
    ensures IsSent(seg, segs')
  {
    var q :| q in segs && SameContent(seg, q);
    var r :| r in segs' && SameContent(q, r);
    assert SameContent(seg, r);
  }

  /** Whatever keeps or sends what was sent and waiting, and stores only that. */
  lemma StoredStill(c: Connection, c': Connection)
    requires Stored(c) && c'.Valid()
    requires forall q <- c.segmentsOut + c.sender.segmentsOut :: IsSent(q, c'.segmentsOut + c'.sender.segmentsOut)
    requires forall o <- c'.sender.outstanding ::
               o in c.sender.outstanding || IsSent(o.seg, c'.segmentsOut + c'.sender.segmentsOut)
    ensures Stored(c')
  {
    forall o <- c'.sender.outstanding ensures IsSent(o.seg, c'.segmentsOut + c'.sender.segmentsOut) {
      if o in c.sender.outstanding {
        SentStill(o.seg, c.segmentsOut + c.sender.segmentsOut, c'.segmentsOut + c'.sender.segmentsOut);
      }
    }
  }

  /** What is stored comes from the store or is queued, and the queue only grows. */
  ghost predicate Queues(s: Sender, s': Sender)
  {
    s.segmentsOut <= s'.segmentsOut &&
    forall o <- s'.outstanding :: o in s.outstanding || o.seg in s'.segmentsOut
  }

  lemma SendQueues(s: Sender, segment: TcpSegment)
    ensures Queues(s, s.SendSegment(segment))
  {
    var s', seg := s.SendSegment(segment), Numbered(s, segment);
    forall o <- s'.outstanding ensures o in s.outstanding || o.seg in s'.segmentsOut {
      InsertOnly(s.outstanding, Outstanding(s.nextSeqno + seg.Length(), seg), o);
      assert s'.segmentsOut[|s.segmentsOut|] == seg;
    }
  }

  lemma QueuesOn(s: Sender, t: Sender, u: Sender)
    requires Queues(s, t) && Queues(t, u)
    ensures Queues(s, u)
  {
  }

  lemma OneQueues(s: Sender, segment: TcpSegment)
    requires s.stream.Valid()
    ensures Queues(s, s.FillOne(segment).0)
  {
    var (t, seg) := s.Take(segment);
    SendQueues(t, seg);
  }

  lemma {:induction false} LoopQueues(s: Sender, segment: TcpSegment)
    requires s.stream.Valid()
    ensures Queues(s, s.FillLoop(segment).0)
    decreases s.stream.Size()
  {
    if s.stream.Size() > 0 && s.recvWdnSz > 0 {
      var (t, seg) := s.FillOne(segment);
      OneQueues(s, segment);
      LoopQueues(t, seg);
      QueuesOn(s, t, t.FillLoop(seg).0);
    }
  }

  lemma FillQueues(s: Sender)
    requires s.stream.Valid()
    ensures Queues(s, s.FillWindow())
  {
    if !s.syn {
      SendQueues(s.(syn := true), EMPTY_SEGMENT.(header := DEFAULT_HEADER.(syn := true)));
    } else {
      var (t, seg) := s.FillLoop(EMPTY_SEGMENT);
      LoopQueues(s, EMPTY_SEGMENT);
      SendQueues(t.(recvWdnSz := Trunc16(t.recvWdnSz - 1)), seg.(header := seg.header.(fin := true)));
      QueuesOn(s, t, t.FillFin(seg));
    }
  }

  lemma AckQueues(s: Sender, ackno: u32, window: u16)
    requires s.stream.Valid()
    ensures Queues(s, s.AckReceived(ackno, window))
  {
    AckReceivedIs(s, ackno, window);
    FillQueues(s.Acknowledge(AckAbs(s, ackno), window));
  }

  lemma InSent(seg: TcpSegment, segs: seq<TcpSegment>)
    requires seg in segs
    ensures IsSent(seg, segs)
  {
    assert SameContent(seg, seg);
  }

  /** The sender moves on. */
  lemma MovesStored(c: Connection, c': Connection)
    requires Stored(c) && c'.Valid() && Queues(c.sender, c'.sender) && c'.segmentsOut == c.segmentsOut
    ensures Stored(c')
  {
    var segs' := c'.segmentsOut + c'.sender.segmentsOut;
    forall q <- c.segmentsOut + c.sender.segmentsOut ensures IsSent(q, segs') { InSent(q, segs'); }
    forall o <- c'.sender.outstanding ensures o in c.sender.outstanding || IsSent(o.seg, segs') {
      if o !in c.sender.outstanding { InSent(o.seg, segs'); }
    }
    StoredStill(c, c');
  }

  /** Segments leave the queue with the content they had. */
  lemma LeavesStored(c: Connection, c': Connection, out: seq<TcpSegment>, left: seq<TcpSegment>)
    requires Stored(c) && c'.Valid() && c'.sender == c.sender.(segmentsOut := left)
    requires c'.segmentsOut == c.segmentsOut + out
    requires forall q <- c.sender.segmentsOut :: q in left || IsSent(q, out)
    ensures Stored(c')
  {
    var segs' := c'.segmentsOut + c'.sender.segmentsOut;
    forall q <- c.segmentsOut + c.sender.segmentsOut ensures IsSent(q, segs') {
      if q in c.segmentsOut || q in left {
        InSent(q, segs');
      } else {
        var r :| r in out && SameContent(q, r);
        assert r in segs';
      }
    }
    StoredStill(c, c');
  }

  lemma FlushStored(c: Connection)
    requires Stored(c)
    ensures Stored(c.FlushBuffer())
  {
    var segs := c.sender.segmentsOut;
    var out := StampAll(segs, c.receiver);
    forall q <- segs ensures IsSent(q, out) {
      var i :| 0 <= i < |segs| && segs[i] == q;
      assert out[i] in out && SameContent(q, out[i]);
    }
    LeavesStored(c, c.FlushBuffer(), out, []);
  }

  lemma FrontStored(c: Connection, seg: TcpSegment, c': Connection)
    requires Stored(c) && c.sender.segmentsOut != [] && SameContent(c.sender.segmentsOut[0], seg)
    requires c' == c.TakeFront(seg).(initiator := c'.initiator)
    ensures Stored(c')
  {
    var segs := c.sender.segmentsOut;
    forall q <- segs ensures q in segs[1..] || IsSent(q, [seg]) {
      if q !in segs[1..] { assert q == segs[0] && seg in [seg]; }
    }
    LeavesStored(c, c', [seg], segs[1..]);
  }

  lemma FillFlushStored(c: Connection, s: Sender)
    requires Stored(c) && s.stream.Valid() && s == c.sender.(stream := s.stream)
    ensures Stored(c.(sender := s.FillWindow()).FlushBuffer())
  {
    FillQueues(s);
    MovesStored(c, c.(sender := s.FillWindow()));
    FlushStored(c.(sender := s.FillWindow()));
  }

  lemma ConnectStored(c: Connection)
    requires Stored(c)
    ensures Stored(c.Connect())
  {
    FillQueues(c.sender);
    var d := c.(sender := c.sender.FillWindow());
    MovesStored(c, d);
    if d.sender.segmentsOut != [] { FrontStored(d, d.sender.segmentsOut[0], c.Connect()); }
  }

  lemma ShutdownStored(c: Connection)
    requires Stored(c)
    ensures Stored(c.UncleanShutdown())
  {
    var d := c.SetErrors();
    var e := if d.sender.segmentsOut == [] then d.(sender := d.sender.SendEmptySegment()) else d;
    MovesStored(c, e);
    var front := e.sender.segmentsOut[0];
    var h := if c.receiver.Ackno().Some? then front.header.(ackno := c.receiver.Ackno().value) else front.header;
    FrontStored(e, front.(header := h.(rst := true)), c.UncleanShutdown());
  }

  lemma TickStored(c: Connection, ms: nat)
    requires Stored(c)
    ensures Stored(c.Tick(ms))
  {
    if c.Active() {
      var d := c.Elapse(ms);
      MovesStored(c, d);
      ShutdownStored(d);
      FlushStored(d.CheckRetransmissions());
    }
  }

  lemma SendReplyStored(d: Connection)
    requires Stored(d)
    ensures Stored(d.SendReply())
  {
    if d.sender.segmentsOut != [] {
      var front := d.sender.segmentsOut[0];
      FrontStored(d, front.(header := d.ReplyHeader(front.header)), d.SendReply());
    }
  }

  lemma AnswerStored(d: Connection, seg: TcpSegment)
    requires Stored(d)
    ensures Stored(d.Answer(seg))
  {
    var s, t := d.sender.FillWindow(), d.sender.SendEmptySegment();
    FillQueues(d.sender);
    MovesStored(d, d.(sender := s));
    MovesStored(d, d.(sender := t));
    SendReplyStored(d.(sender := s));
    SendReplyStored(d.(sender := t));
    FlushStored(d);
  }

  lemma ReceiveStored(c: Connection, seg: TcpSegment)
    requires Stored(c)
    ensures Stored(c.SegmentReceived(seg))
  {
    if c.Active() && !seg.header.rst {
      var d := c.(sinceLast := 0).Absorb(seg);
      AckQueues(c.sender, seg.header.ackno, seg.header.win);
      MovesStored(c, d);
      AnswerStored(d, seg);
      ReceiveActive(c, seg);
    }
  }

  lemma DoStored(c: Connection, act: Act)
    requires Stored(c)
    ensures Stored(Do(c, act))
  {
    match act
    case Write(data) => FillFlushStored(c, c.sender.(stream := c.sender.stream.Write(data)));
    case EndInput => FillFlushStored(c, c.sender.(stream := c.sender.stream.(ended := true)));
    case Connect => ConnectStored(c);
    case Tick(ms) => TickStored(c, ms);
    case Receive(seg) => ReceiveStored(c, seg);
    case Read(_) =>
  }

  lemma {:induction false} RunStored(rt: u16, recv: nat, send: nat, isn: u32, acts: seq<Act>)
    ensures Stored(ActRun(NewConnection(rt, recv, send, isn), acts))
  {
    if acts != [] {
      RunStored(rt, recv, send, isn, acts[..|acts| - 1]);
      DoStored(ActRun(NewConnection(rt, recv, send, isn), acts[..|acts| - 1]), acts[|acts| - 1]);
    }
  }

  /** In every run, after a write, the end of the stream or a tick of an active connection nothing waits in the queue,
      and so everything stored for retransmission has gone out. */
  lemma EverythingGoesOut(rt: u16, recv: nat, send: nat, isn: u32, acts: seq<Act>, act: Act)
    requires ActRun(NewConnection(rt, recv, send, isn), acts).Active() && (act.Write? || act.EndInput? || act.Tick?)
    ensures var c := Do(ActRun(NewConnection(rt, recv, send, isn), acts), act);
            c.sender.segmentsOut == [] && forall o <- c.sender.outstanding :: IsSent(o.seg, c.segmentsOut)
  {
    var c := Do(ActRun(NewConnection(rt, recv, send, isn), acts), act);
    RunStored(rt, recv, send, isn, acts);
    DoStored(ActRun(NewConnection(rt, recv, send, isn), acts), act);
    assert c.segmentsOut + c.sender.segmentsOut == c.segmentsOut;
  }

  /** And everything that the stream has and the window admits has been cut and sent. */
  lemma WriteReaches(c: Connection, data: seq<byte>, peerSyn: bool)
    requires ConnInv(c, peerSyn) && MayWrite(c.sender, data) && c.Active() && c.sender.syn
    ensures var s' := c.Write(data).sender;
            && s'.stream.history == c.sender.stream.Write(data).history
            && s'.nextSeqno == Min(Edge(c.sender), Total(s'))
  {
    var s := c.sender.(stream := c.sender.stream.Write(data));
    WriteInv(c.sender, data);
    FillReaches(s);
    FillTakes(s);
  }

  lemma EndInputReaches(c: Connection, peerSyn: bool)
    requires ConnInv(c, peerSyn) && c.Active() && c.sender.syn
    ensures var s' := c.EndInputStream().sender;
            s'.stream.ended && s'.nextSeqno == Min(Edge(c.sender), 2 + |c.sender.stream.history|)
  {
    var s := c.sender.(stream := c.sender.stream.(ended := true));
    CloseInv(c.sender);
    FillReaches(s);
    FillTakes(s);
  }

  // Retransmissions

  /** A tick of an active connection sends what waits; and then, exactly if the time since the timer was restarted has
      reached the timeout, the lowest segment stored, last of all. */
  lemma TickResends(c: Connection, ms: nat, peerSyn: bool)
    requires ConnInv(c, peerSyn) && c.Active() && c.Elapse(ms).sender.timer.retransmissions <= 8
    ensures var s := c.sender;
            var due := s.outstanding != [] && s.timer.elapsed + ms >= s.timer.rto;
            c.Tick(ms).segmentsOut ==
              c.segmentsOut + StampAll(s.segmentsOut + (if due then [s.outstanding[0].seg] else []), c.receiver)
  {
    TickRetransmits(c.sender, ms);
    assert c.sender.segmentsOut + [] == c.sender.segmentsOut;
  }

  /** Giving up sends one RST with the current acknowledgment number: the segment at the front of the queue, or an empty
      one if nothing waits. */
  lemma ShutdownSendsReset(c: Connection)
    requires c.Valid()
    ensures var c' := c.UncleanShutdown();
            && |c'.segmentsOut| == |c.segmentsOut| + 1 && c.segmentsOut <= c'.segmentsOut
            && var seg := c'.segmentsOut[|c.segmentsOut|];
               && seg.header.rst && (c.receiver.syn ==> seg.header.ackno == c.receiver.ack)
               && (if c.sender.segmentsOut == []
                   then seg.payload == [] && seg.header.seqno == Numbered(c.sender, EMPTY_SEGMENT).header.seqno
                   else SameContent(c.sender.segmentsOut[0], seg))
               && c'.sender.stream.error && c'.receiver.asm.out.error && !c'.linger
  {
  }


  // Who connects

  /** Connecting makes an endpoint the initiator exactly if something goes out, and that is one segment. */
  lemma ConnectInitiates(c: Connection)
    requires c.Valid()
    ensures var c', sends := c.Connect(), c.sender.segmentsOut != [] || HasToSend(c.sender);
            && (c'.initiator <==> c.initiator || sends)
            && |c'.segmentsOut| == |c.segmentsOut| + (if sends then 1 else 0) && c.segmentsOut <= c'.segmentsOut
  {
    FillSendsIff(c.sender);
  }

  lemma {:induction false} StaysInitiator(c: Connection, acts: seq<Act>)
    requires c.Valid() && c.initiator
    ensures ActRun(c, acts).initiator
  {
    if acts != [] {
      StaysInitiator(c, acts[..|acts| - 1]);
      DoInitiator(ActRun(c, acts[..|acts| - 1]), acts[|acts| - 1]);
    }
  }

  lemma DoInitiator(c: Connection, act: Act)
    requires c.Valid() && c.initiator
    ensures Do(c, act).initiator
  {
  }

  /** So whoever has connected answers every segment that takes up sequence space, in every continuation. */
  lemma InitiatorAnswers(c: Connection, acts: seq<Act>, seg: TcpSegment, peerSyn: bool)
    requires c.Valid() && (c.sender.segmentsOut != [] || HasToSend(c.sender))
    requires var d := ActRun(c.Connect(), acts);
             ConnInv(d, peerSyn) && Acceptable(d, seg, peerSyn) && d.Active() && !seg.header.rst && seg.Length() > 0
    ensures var d := ActRun(c.Connect(), acts);
            var d' := d.SegmentReceived(seg);
            && |d'.segmentsOut| == |d.segmentsOut| + 1 && d.segmentsOut <= d'.segmentsOut
            && Acknowledges(d'.segmentsOut[|d.segmentsOut|], d'.receiver)
  {
    ConnectInitiates(c);
    StaysInitiator(c.Connect(), acts);
    AnsweredIff(ActRun(c.Connect(), acts), seg, peerSyn);
  }
}
