/** Acknowledgments between two complete connections, where they travel in the headers of segments. */
module DuplexAcks {
  import opened Machine
  import opened Segments
  import opened TcpReceiver
  import opened SenderInvariant
  import opened SenderSteps
  import opened SenderProgress
  import opened TcpConnection
  import opened ConnectionInvariant
  import opened TwoPartySafety
  import opened TwoPartyWindow
  import opened SenderCut
  import opened ConnectionWindow
  import opened SenderLimits
  import opened SenderEdges
  import opened ConnectionRuns
  import opened Duplex
  import opened WrappingIntegers
  import T = TwoParty
  import AssemblyRuns

  /** The acknowledgments among the segments; a receiver of a RST looks at nothing else. */
  function Acks(segs: seq<TcpSegment>): set<T.AckMessage>
  {
    set seg <- segs | seg.header.ack && !seg.header.rst :: T.AckMessage(seg.header.ackno, seg.header.win)
  }

  /** One direction, as a sender and a receiver joined by what has been sent. */
  function Joined(x: Connection, y: Connection): T.World
  {
    T.World(x.sender, y.receiver, Acks(y.segmentsOut), true)
  }

  /** What every operation of the sender does except taking an acknowledgment: nothing is forgotten and the
      window is not opened any further, save for the SYN. */
  ghost predicate Stays(s: Sender, s': Sender)
  {
    Una(s') == Una(s) && Edge(s') <= Max(Edge(s), 1) && (s.syn ==> s'.syn)
  }

  lemma FillStays(s: Sender)
    requires Inv(s)
    ensures Stays(s, s.FillWindow()) && s.FillWindow().syn
  {
    FillProgress(s);
    FillWindowInv(s);
  }

  lemma WriteStays(x: Connection, data: seq<byte>, peerSyn: bool)
    requires ConnInv(x, peerSyn) && MayWrite(x.sender, data)
    ensures Stays(x.sender, x.Write(data).sender)
  {
    WriteInv(x.sender, data);
    FillStays(x.sender.(stream := x.sender.stream.Write(data)));
  }

  lemma EndInputStays(x: Connection, peerSyn: bool)
    requires ConnInv(x, peerSyn)
    ensures Stays(x.sender, x.EndInputStream().sender)
  {
    CloseInv(x.sender);
    FillStays(x.sender.(stream := x.sender.stream.(ended := true)));
  }

  lemma ShutdownStays(x: Connection)
    requires x.Valid()
    ensures Stays(x.sender, x.UncleanShutdown().sender)
  {
  }

  lemma TickStays(x: Connection, ms: nat)
    requires x.Valid()
    ensures Stays(x.sender, x.Tick(ms).sender)
  {
    var d := x.Elapse(ms);
    assert Stays(x.sender, d.sender);
    if d.sender.timer.retransmissions > MAX_RETX_ATTEMPTS { ShutdownStays(d); }
    var e := d.CheckRetransmissions();
    assert Stays(d.sender, e.sender);
    assert Stays(e.sender, e.FlushBuffer().sender);
  }

  /** Everything but the reception of a segment. */
  lemma LocalStays(x: Connection, act: Act, peerSyn: bool)
    requires ConnInv(x, peerSyn) && !act.Receive? && MayDo(x, act)
    ensures Stays(x.sender, Do(x, act).sender)
  {
    match act
    case Write(data) => WriteStays(x, data, peerSyn);
    case EndInput => EndInputStays(x, peerSyn);
    case Connect => FillStays(x.sender);
    case Tick(ms) => TickStays(x, ms);
    case Read(n) =>
  }

  // What is announced

  /** Every acknowledgment sent since `c` has the current number and window of `c'`. */
  ghost predicate Announces(c: Connection, c': Connection)
  {
    && c'.receiver.Valid() && c.segmentsOut <= c'.segmentsOut
    && (forall i :: |c.segmentsOut| <= i < |c'.segmentsOut| ==> Announced(c'.segmentsOut[i], c'.receiver))
  }

  ghost predicate Announced(seg: TcpSegment, r: Receiver)
    requires r.Valid()
  {
    seg.header.ack && !seg.header.rst ==> r.syn && seg.header.ackno == r.ack && seg.header.win == ClippedWindow(r)
  }

  lemma FlushAnnounces(c: Connection)
    requires c.Valid() && QueueOk(c.sender.segmentsOut, c.receiver.syn)
    ensures Announces(c, c.FlushBuffer())
  {
    var segs := c.sender.segmentsOut;
    var out := StampAll(segs, c.receiver);
    forall i | 0 <= i < |out| ensures Announced(out[i], c.receiver) {
      assert segs[i] in segs;
    }
  }

  lemma FillQueue(s: Sender, synced: bool)
    requires Inv(s) && QueueOk(s.segmentsOut, synced)
    ensures QueueOk(s.FillWindow().segmentsOut, synced)
  {
    FillAddsPlain(s);
  }

  lemma WriteAnnounces(x: Connection, data: seq<byte>)
    requires ConnInv(x, x.receiver.syn) && MayWrite(x.sender, data)
    ensures Announces(x, x.Write(data))
  {
    var s := x.sender.(stream := x.sender.stream.Write(data));
    WriteInv(x.sender, data);
    FillQueue(s, x.receiver.syn);
    FlushAnnounces(x.(sender := s.FillWindow()));
  }

  lemma EndInputAnnounces(x: Connection)
    requires ConnInv(x, x.receiver.syn)
    ensures Announces(x, x.EndInputStream())
  {
    var s := x.sender.(stream := x.sender.stream.(ended := true));
    CloseInv(x.sender);
    FillQueue(s, x.receiver.syn);
    FlushAnnounces(x.(sender := s.FillWindow()));
  }

  /** The segment at the front of the queue is no empty acknowledgment, or happens to carry the current number and
      window, which are zero. */
  predicate MayConnect(x: Connection)
    requires x.receiver.Valid()
  {
    || x.sender.segmentsOut == []
    || !x.sender.segmentsOut[0].header.ack
    || (x.receiver.ack == 0 && ClippedWindow(x.receiver) == 0)
  }

  lemma FillFront(s: Sender, synced: bool)
    requires Inv(s) && QueueOk(s.segmentsOut, synced)
    ensures var t := s.FillWindow();
            && QueueOk(t.segmentsOut, synced)
            && (s.segmentsOut != [] ==> t.segmentsOut != [] && t.segmentsOut[0] == s.segmentsOut[0])
            && (s.segmentsOut == [] && t.segmentsOut != [] ==> Plain(t.segmentsOut[0]))
  {
    FillQueue(s, synced);
    FillAddsSegments(s);
    FillAddsPlain(s);
    if s.FillWindow().segmentsOut != [] { assert s.FillWindow().segmentsOut[0] in s.FillWindow().segmentsOut; }
  }

  /** Connecting sends the front of the queue without stamping it. What it sends is sound if and only if that is
      not an empty acknowledgment, unless the current number and window are zero. */
  lemma ConnectAnnouncesIff(x: Connection)
    requires ConnInv(x, x.receiver.syn)
    ensures Announces(x, x.Connect()) <==> MayConnect(x)
  {
    var s, x' := x.sender.FillWindow(), x.Connect();
    FillFront(x.sender, x.receiver.syn);
    if s.segmentsOut != [] {
      var front := s.segmentsOut[0];
      assert front in s.segmentsOut;
      assert x'.segmentsOut == x.segmentsOut + [front];
      assert Announces(x, x') <==> Announced(x'.segmentsOut[|x.segmentsOut|], x.receiver);
    }
  }

  lemma ShutdownAnnounces(x: Connection)
    requires x.Valid() && QueueOk(x.sender.segmentsOut, x.receiver.syn)
    ensures Announces(x, x.UncleanShutdown())
    ensures QueueOk(x.UncleanShutdown().sender.segmentsOut, x.UncleanShutdown().receiver.syn)
    ensures x.UncleanShutdown().receiver == x.SetErrors().receiver
  {
  }

  lemma TickAnnounces(x: Connection, ms: nat)
    requires ConnInv(x, x.receiver.syn)
    ensures Announces(x, x.Tick(ms))
  {
    if x.Active() {
      var d := x.Elapse(ms);
      ElapseKeeps(x, ms, x.receiver.syn);
      var e := d.CheckRetransmissions();
      if d.sender.timer.retransmissions > MAX_RETX_ATTEMPTS { ShutdownAnnounces(d); }
      FlushAnnounces(e);
    }
  }

  /** A connection does not send an unstamped acknowledgment by connecting late. */
  predicate Orderly(x: Connection, act: Act)
    requires x.Valid()
  {
    act.Connect? ==> MayConnect(x)
  }

  lemma LocalAnnounces(x: Connection, act: Act)
    requires ConnInv(x, x.receiver.syn)
    requires !act.Receive? && MayDo(x, act) && Orderly(x, act)
    ensures Announces(x, Do(x, act))
  {
    match act
    case Write(data) => WriteAnnounces(x, data);
    case EndInput => EndInputAnnounces(x);
    case Connect => ConnectAnnouncesIff(x);
    case Tick(ms) => TickAnnounces(x, ms);
    case Read(n) =>
  }

  // The invariant

  /** Direction x to y: besides what holds of any sender and receiver joined by a channel, nothing past the SYN is
      sent before the peer has it, and an endpoint that has the peer's SYN has sent its own. */
  ghost predicate Sound(x: Connection, y: Connection)
  {
    && ConnInv(x, x.receiver.syn)
    && WorldInv(Joined(x, y))
    && (Edge(x.sender) > 1 ==> y.receiver.syn)
    && (x.receiver.syn || x.initiator ==> x.sender.syn)
  }

  lemma NewSound(x: Connection, y: Connection, rtX: u16, recvX: nat, sendX: nat, isnX: u32,
                 rtY: u16, recvY: nat, sendY: nat, isnY: u32)
    requires x == NewConnection(rtX, recvX, sendX, isnX) && y == NewConnection(rtY, recvY, sendY, isnY)
    ensures Sound(x, y)
  {
    NewInv(sendX, rtX, isnX);
    InitInv(sendX, recvY, rtX, isnX);
    assert Joined(x, y) == T.Init(sendX, recvY, rtX, isnX);
  }

  // The sender's side

  lemma SenderJoined(x: Connection, y: Connection, x': Connection)
    requires WorldInv(Joined(x, y)) && (Edge(x.sender) > 1 ==> y.receiver.syn)
    requires Inv(x'.sender) && Progress(x.sender, x'.sender) && Stays(x.sender, x'.sender)
    ensures WorldInv(Joined(x', y)) && (Edge(x'.sender) > 1 ==> y.receiver.syn)
  {
    SenderStep(Joined(x, y), x'.sender);
    assert Joined(x', y) == Joined(x, y).(sender := x'.sender);
  }

  // The receiver's side

  lemma ErrorsJoined(w: T.World, r': Receiver)
    requires WorldInv(w) && OnlyErrors(w.receiver, r')
    ensures WorldInv(w.(receiver := r')) && Frontier(r') == Frontier(w.receiver)
  {
    assert forall p: nat :: AssemblyRuns.Has(w.receiver.asm, p) <==> AssemblyRuns.Has(r'.asm, p);
  }

  /** Announcing the current acknowledgment number is sound. */
  lemma AcksJoined(w: T.World, segs: seq<TcpSegment>, segs': seq<TcpSegment>)
    requires WorldInv(w) && w.finKept && w.acks == Acks(segs)
    requires segs <= segs' && forall i :: |segs| <= i < |segs'| ==> Announced(segs'[i], w.receiver)
    ensures WorldInv(w.(acks := Acks(segs')))
  {
    forall a <- Acks(segs') ensures w.receiver.syn && AckOk(a, w.sender.isn, Frontier(w.receiver)) {
      var seg :| seg in segs' && seg.header.ack && !seg.header.rst &&
                 a == T.AckMessage(seg.header.ackno, seg.header.win);
      var i :| 0 <= i < |segs'| && segs'[i] == seg;
      if i < |segs| {
        assert segs[i] in segs && a in w.acks;
      } else {
        assert a.ackno == Wrap(Frontier(w.receiver), w.sender.isn);
      }
    }
  }

  // Everything but the reception of a segment

  lemma LocalReceived(w: T.World, x: Connection, act: Act)
    requires WorldInv(w) && w.receiver == x.receiver && x.Valid() && !act.Receive?
    ensures WorldInv(w.(receiver := Do(x, act).receiver)) && Do(x, act).receiver.syn == x.receiver.syn
  {
    if act.Read? {
      ReadStep(w, act.n);
    } else {
      LocalReceiver(x, act);
      ErrorsJoined(w, Do(x, act).receiver);
    }
  }

  lemma LocalJoined(x: Connection, y: Connection, act: Act)
    requires Sound(x, y) && Sound(y, x) && !act.Receive? && Enabled(x, y, act) && Orderly(x, act)
    ensures WorldInv(Joined(y, Do(x, act))) && Do(x, act).receiver.syn == x.receiver.syn
  {
    var w, x' := Joined(y, x), Do(x, act);
    LocalAnnounces(x, act);
    LocalReceived(w, x, act);
    AcksJoined(w.(receiver := x'.receiver), x.segmentsOut, x'.segmentsOut);
    assert Joined(y, x') == w.(receiver := x'.receiver).(acks := Acks(x'.segmentsOut));
  }

  lemma InitiatorHasSent(x: Connection, act: Act, peerSyn: bool)
    requires ConnInv(x, peerSyn) && (x.initiator ==> x.sender.syn)
    requires Progress(x.sender, Do(x, act).sender)
    ensures Do(x, act).initiator ==> Do(x, act).sender.syn
  {
    if act.Connect? { FillWindowInv(x.sender); }
  }

  lemma LocalSound(x: Connection, y: Connection, act: Act)
    requires Sound(x, y) && Sound(y, x) && !act.Receive? && Enabled(x, y, act) && Orderly(x, act)
    ensures Sound(Do(x, act), y) && Sound(y, Do(x, act))
  {
    var x' := Do(x, act);
    LocalKeeps(x, act, x.receiver.syn);
    LocalStays(x, act, x.receiver.syn);
    SenderJoined(x, y, x');
    LocalJoined(x, y, act);
    InitiatorHasSent(x, act, x.receiver.syn);
  }

  // The reception of a segment

  /** What is delivered acknowledges only what is there to acknowledge, and nothing comes before the SYN. */
  lemma DeliveredSound(x: Connection, y: Connection, seg: TcpSegment)
    requires Sound(x, y) && Sound(y, x) && seg in y.segmentsOut && !seg.header.rst
    ensures Sendable(seg, y.sender)
    ensures seg.header.ack ==> T.AckMessage(seg.header.ackno, seg.header.win) in Acks(y.segmentsOut)
    ensures seg.header.ack ==> x.sender.syn && y.receiver.syn
    ensures seg.Length() > 0 ==> x.receiver.syn || seg.header.syn
  {
    if seg.header.ack {
      assert T.AckMessage(seg.header.ackno, seg.header.win) in Acks(y.segmentsOut);
    }
    var s := y.sender;
    var from: nat :| from + seg.Length() <= s.nextSeqno && SentAt(seg, from, s.isn, s.stream.history, s.finSent);
  }

  lemma SynTaken(r: Receiver, seg: TcpSegment)
    requires r.Valid()
    ensures r.SegmentReceived(seg).syn == (r.syn || seg.header.syn)
  {
  }

  lemma AckTaken(w: T.World, a: T.AckMessage)
    requires WorldInv(w) && a in w.acks && w.sender.nextSeqno < TWO31
    ensures WorldInv(w.(sender := w.sender.AckReceived(a.ackno, a.window)))
  {
    DeliverAckStep(w, a);
  }

  lemma AckJoined(x: Connection, y: Connection, seg: TcpSegment, d: Connection)
    requires Sound(x, y) && Sound(y, x) && seg in y.segmentsOut && !seg.header.rst && x.sender.nextSeqno < TWO31
    requires d.sender == if seg.header.ack then x.sender.AckReceived(seg.header.ackno, seg.header.win) else x.sender
    ensures WorldInv(Joined(d, y)) && (Edge(d.sender) > 1 ==> y.receiver.syn)
  {
    DeliveredSound(x, y, seg);
    if seg.header.ack {
      AckTaken(Joined(x, y), T.AckMessage(seg.header.ackno, seg.header.win));
    }
    assert Joined(d, y) == Joined(x, y).(sender := d.sender);
  }

  lemma ReplyStays(d: Connection, seg: TcpSegment)
    requires Inv(d.sender) && d.receiver.Valid()
    ensures Stays(d.sender, d.Reply(seg).sender)
    ensures seg.header.syn && !seg.header.ack && !d.initiator ==> d.Reply(seg).sender.syn
  {
    FillStays(d.sender);
  }

  lemma ReplyAnnounces(d: Connection, seg: TcpSegment)
    requires d.Valid() && d.receiver.syn
    ensures Announces(d, d.Reply(seg))
  {
  }

  lemma AnswerSound(d: Connection, seg: TcpSegment)
    requires Sends(d, d.receiver.syn) && (seg.Length() > 0 ==> d.receiver.syn)
    ensures var e := d.Answer(seg);
            && Stays(d.sender, e.sender) && Announces(d, e) && e.receiver == d.receiver && e.initiator == d.initiator
            && (seg.header.syn && !seg.header.ack && !d.initiator ==> e.sender.syn)
  {
    if seg.Length() > 0 {
      ReplyStays(d, seg);
      ReplyAnnounces(d, seg);
    } else {
      FlushAnnounces(d);
    }
  }

  /** What the FIN needs, for a connection that takes it. */
  predicate KeepsFins(x: Connection, act: Act)
    requires x.Valid()
  {
    act.Receive? && act.seg.header.fin && !act.seg.header.rst && x.Active() ==> T.KeepsFin(x.receiver, act.seg)
  }

  lemma DeliveredNext(w: T.World, seg: TcpSegment)
    requires w.Valid() && w.finKept && (seg.header.fin ==> T.KeepsFin(w.receiver, seg))
    ensures T.Next(w, T.DeliverSegment(seg)) == w.(receiver := w.receiver.SegmentReceived(seg))
  {
  }

  lemma TakenJoined(w: T.World, seg: TcpSegment)
    requires WorldInv(w) && w.finKept && Sendable(seg, w.sender) && w.sender.nextSeqno < TWO31
    requires (seg.header.fin ==> T.KeepsFin(w.receiver, seg)) && FinFits(w.receiver, seg)
    ensures WorldInv(w.(receiver := w.receiver.SegmentReceived(seg)))
  {
    DeliverSegmentStep(w, seg);
    DeliveredNext(w, seg);
  }

  lemma ActiveKeeps(x: Connection, y: Connection, seg: TcpSegment, d: Connection)
    requires Sound(x, y) && Sound(y, x) && seg in y.segmentsOut && !seg.header.rst && d == x.Absorb(seg)
    ensures d.receiver.syn == (x.receiver.syn || seg.header.syn) && (seg.Length() > 0 ==> d.receiver.syn)
    ensures Sends(d, d.receiver.syn) && ConnInv(d.Answer(seg), d.receiver.syn)
    ensures Progress(x.sender, d.Answer(seg).sender) && Progress(d.sender, d.Answer(seg).sender)
  {
    DeliveredSound(x, y, seg);
    SynTaken(x.receiver, seg);
    ConnInvGrows(x, x.receiver.syn, d.receiver.syn);
    AbsorbKeeps(x, seg, d.receiver.syn);
    SegmentKeeps(x, seg, d.receiver.syn);
    AnswerKeeps(d, seg, d.receiver.syn);
  }

  lemma AnswererSound(x: Connection, y: Connection, seg: TcpSegment, d: Connection)
    requires Sound(x, y) && Sound(y, x) && seg in y.segmentsOut && !seg.header.rst && d == x.Absorb(seg)
    requires x.sender.nextSeqno < TWO31
    ensures Sound(d.Answer(seg), y)
  {
    var e := d.Answer(seg);
    DeliveredSound(x, y, seg);
    ActiveKeeps(x, y, seg, d);
    AnswerSound(d, seg);
    AckJoined(x, y, seg, d);
    SenderJoined(d, y, e);
  }

  lemma AnsweredSound(x: Connection, y: Connection, seg: TcpSegment, d: Connection)
    requires Sound(x, y) && Sound(y, x) && seg in y.segmentsOut && !seg.header.rst && d == x.Absorb(seg)
    requires y.sender.nextSeqno < TWO31
    requires (seg.header.fin ==> T.KeepsFin(x.receiver, seg)) && FinFits(x.receiver, seg)
    ensures Sound(y, d.Answer(seg))
  {
    var e := d.Answer(seg);
    DeliveredSound(x, y, seg);
    ActiveKeeps(x, y, seg, d);
    AnswerSound(d, seg);
    TakenJoined(Joined(y, x), seg);
    AcksJoined(Joined(y, x).(receiver := d.receiver), x.segmentsOut, e.segmentsOut);
    assert Joined(y, e) == Joined(y, x).(receiver := d.receiver).(acks := Acks(e.segmentsOut));
  }

  lemma ResetSound(x: Connection, y: Connection, x': Connection)
    requires Sound(x, y) && Sound(y, x) && x' == x.(sinceLast := 0).SetErrors()
    ensures Sound(x', y) && Sound(y, x')
  {
    ErrorsKeep(x.(sinceLast := 0), x.receiver.syn);
    SenderJoined(x, y, x');
    ErrorsJoined(Joined(y, x), x'.receiver);
    assert Joined(y, x') == Joined(y, x).(receiver := x'.receiver);
  }

  /** The time since the last segment and the linger flag play no part. */
  lemma ClockSound(x: Connection, y: Connection, since: nat, linger: bool)
    requires Sound(x, y) && Sound(y, x)
    ensures var x' := x.(sinceLast := since, linger := linger); Sound(x', y) && Sound(y, x')
  {
    var x' := x.(sinceLast := since, linger := linger);
    assert Joined(x', y) == Joined(x, y) && Joined(y, x') == Joined(y, x);
  }

  lemma ReceiveIs(x: Connection, seg: TcpSegment, e: Connection)
    requires x.Valid() && x.Active() && !seg.header.rst && e == x.(sinceLast := 0).Absorb(seg).Answer(seg)
    ensures var x' := x.SegmentReceived(seg); x' == e.(sinceLast := e.sinceLast, linger := x'.linger)
  {
    ReceiveActive(x, seg);
  }

  lemma ActiveSound(x: Connection, y: Connection, seg: TcpSegment)
    requires Sound(x, y) && Sound(y, x) && seg in y.segmentsOut && KeepsFins(x, Receive(seg))
    requires x.sender.nextSeqno < TWO31 && y.sender.nextSeqno < TWO31
    requires x.Active() && !seg.header.rst && FinFits(x.receiver, seg)
    ensures Sound(x.SegmentReceived(seg), y) && Sound(y, x.SegmentReceived(seg))
  {
    var b := x.(sinceLast := 0);
    var d := b.Absorb(seg);
    var e := d.Answer(seg);
    ClockSound(x, y, 0, x.linger);
    AnswererSound(b, y, seg, d);
    AnsweredSound(b, y, seg, d);
    ReceiveIs(x, seg, e);
    ClockSound(e, y, e.sinceLast, x.SegmentReceived(seg).linger);
  }

  lemma ReceiveSound(x: Connection, y: Connection, seg: TcpSegment)
    requires Whole(x, y) && Whole(y, x) && seg in y.segmentsOut && KeepsFins(x, Receive(seg))
    requires x.sender.nextSeqno < TWO31 && y.sender.nextSeqno < TWO31
    ensures Sound(x.SegmentReceived(seg), y) && Sound(y, x.SegmentReceived(seg))
  {
    if x.Active() {
      if seg.header.rst {
        ResetSound(x, y, x.SegmentReceived(seg));
      } else {
        DeliveredSound(x, y, seg);
        FinsFit(y.sender, y.segmentsOut, x.receiver, Acks(x.segmentsOut), seg);
        ActiveSound(x, y, seg);
      }
    }
  }

  lemma DoSound(x: Connection, y: Connection, act: Act)
    requires Whole(x, y) && Whole(y, x) && Enabled(x, y, act) && Orderly(x, act) && KeepsFins(x, act)
    requires x.sender.nextSeqno < TWO31 && y.sender.nextSeqno < TWO31
    ensures Sound(Do(x, act), y) && Sound(y, Do(x, act))
  {
    if act.Receive? { ReceiveSound(x, y, act.seg); } else { LocalSound(x, y, act); }
  }

  // Windows

  /** Direction x to y: what x sends lies in the window of y. */
  ghost predicate Windows(x: Connection, y: Connection)
  {
    Logged(x, y.receiver, Acks(y.segmentsOut))
  }

  ghost predicate Whole(x: Connection, y: Connection)
  {
    Sound(x, y) && Windows(x, y)
  }

  lemma NewWindows(x: Connection, y: Connection, rtX: u16, recvX: nat, sendX: nat, isnX: u32,
                   rtY: u16, recvY: nat, sendY: nat, isnY: u32)
    requires x == NewConnection(rtX, recvX, sendX, isnX) && y == NewConnection(rtY, recvY, sendY, isnY)
    ensures Windows(x, y)
  {
    NewInv(sendX, rtX, isnX);
    assert CutInv(x.sender, [], false) && FinInWindow(x.sender, y.receiver, false);
  }

  lemma AnswersLogged(b: Connection, y: Connection, seg: TcpSegment)
    requires Whole(b, y) && Sound(y, b) && seg in y.segmentsOut && b.sender.nextSeqno < TWO31 && !seg.header.rst
    ensures Windows(b.Absorb(seg).Answer(seg), y)
  {
    var acks, d := Acks(y.segmentsOut), b.Absorb(seg);
    DeliveredSound(b, y, seg);
    ActiveKeeps(b, y, seg, d);
    AbsorbLogged(b, seg, b.receiver.syn, y.receiver, acks);
    AnswerLogged(d, seg, d.receiver.syn, y.receiver, acks);
  }

  lemma ReceiveLogged(x: Connection, y: Connection, seg: TcpSegment)
    requires Whole(x, y) && Sound(y, x) && seg in y.segmentsOut && x.sender.nextSeqno < TWO31
    ensures Windows(x.SegmentReceived(seg), y)
  {
    if x.Active() {
      var b := x.(sinceLast := 0);
      if seg.header.rst {
        ErrorsLogged(b, y.receiver, Acks(y.segmentsOut));
      } else {
        ClockSound(x, y, 0, x.linger);
        AnswersLogged(b, y, seg);
        ReceiveIs(x, seg, b.Absorb(seg).Answer(seg));
      }
    }
  }

  lemma LocalWindows(x: Connection, y: Connection, act: Act)
    requires ConnInv(x, x.receiver.syn) && Windows(x, y) && !act.Receive? && MayDo(x, act)
    ensures Windows(Do(x, act), y)
  {
    LocalLogged(x, act, x.receiver.syn, y.receiver, Acks(y.segmentsOut));
  }

  lemma SenderWindows(x: Connection, y: Connection, act: Act)
    requires Whole(x, y) && Sound(y, x) && Enabled(x, y, act) && x.sender.nextSeqno < TWO31
    ensures Windows(Do(x, act), y)
  {
    match act
    case Receive(seg) => ReceiveLogged(x, y, seg);
    case _ => LocalWindows(x, y, act);
  }

  lemma AnnouncedLog(s: Sender, log: seq<TcpSegment>, r: Receiver, segs: seq<TcpSegment>, segs': seq<TcpSegment>)
    requires Inv(s) && ReceiverOk(r, s) && LogInv(s, log, r, Acks(segs))
    requires segs <= segs' && forall i :: |segs| <= i < |segs'| ==> Announced(segs'[i], r)
    ensures LogInv(s, log, r, Acks(segs'))
  {
    forall a <- Acks(segs')
      ensures a in Acks(segs) || (r.syn && a.ackno == r.ack && a.window <= r.WindowSize())
    {
      var seg :| seg in segs' && seg.header.ack && !seg.header.rst &&
                 a == T.AckMessage(seg.header.ackno, seg.header.win);
      var i :| 0 <= i < |segs'| && segs'[i] == seg;
      if i < |segs| { assert segs[i] in segs; }
    }
    AcksLog(s, log, r, Acks(segs), Acks(segs'));
  }

  lemma ErrorsLog(s: Sender, log: seq<TcpSegment>, r: Receiver, r': Receiver, acks: set<T.AckMessage>)
    requires LogInv(s, log, r, acks) && OnlyErrors(r, r')
    ensures LogInv(s, log, r', acks)
  {
    if s.nextSeqno < TWO31 {
      var piggy :| CutInv(s, log, piggy) && FinInWindow(s, r, piggy);
      ReceiverLog(s, log, r, r', acks, piggy);
    }
  }

  lemma ReceiverChanges(x: Connection, y: Connection, act: Act)
    requires Whole(y, x) && x.Valid() && Enabled(x, y, act) && y.sender.nextSeqno < TWO31
    ensures LogInv(y.sender, y.segmentsOut, Do(x, act).receiver, Acks(x.segmentsOut))
  {
    var s, log, r, r', acks := y.sender, y.segmentsOut, x.receiver, Do(x, act).receiver, Acks(x.segmentsOut);
    match act
    case Receive(seg) =>
      ReceiveReceiver(x, seg);
      if OnlyErrors(r, r') {
        ErrorsLog(s, log, r, r', acks);
      } else {
        assert Sendable(seg, s);
        DeliverLog(s, log, r, acks, seg);
      }
    case Read(n) => ReadLog(s, log, r, acks, n);
    case _ =>
      LocalReceiver(x, act);
      ErrorsLog(s, log, r, r', acks);
  }

  lemma AnswersAnnounce(b: Connection, y: Connection, seg: TcpSegment)
    requires Sound(b, y) && Sound(y, b) && seg in y.segmentsOut && !seg.header.rst
    ensures Announces(b, b.Absorb(seg).Answer(seg))
  {
    ActiveKeeps(b, y, seg, b.Absorb(seg));
    AnswerSound(b.Absorb(seg), seg);
  }

  lemma ReceiveAnnounces(x: Connection, y: Connection, seg: TcpSegment)
    requires Sound(x, y) && Sound(y, x) && seg in y.segmentsOut
    ensures Announces(x, x.SegmentReceived(seg))
  {
    if x.Active() && !seg.header.rst {
      var b := x.(sinceLast := 0);
      ClockSound(x, y, 0, x.linger);
      AnswersAnnounce(b, y, seg);
      ReceiveIs(x, seg, b.Absorb(seg).Answer(seg));
    }
  }

  lemma ReceiverWindows(x: Connection, y: Connection, act: Act)
    requires Sound(x, y) && Whole(y, x) && Enabled(x, y, act) && Orderly(x, act) && y.sender.nextSeqno < TWO31
    requires Sound(y, Do(x, act))
    ensures Windows(y, Do(x, act))
  {
    ReceiverChanges(x, y, act);
    if act.Receive? { ReceiveAnnounces(x, y, act.seg); } else { LocalAnnounces(x, act); }
    AnnouncedLog(y.sender, y.segmentsOut, Do(x, act).receiver, x.segmentsOut, Do(x, act).segmentsOut);
  }

  lemma DoWhole(x: Connection, y: Connection, act: Act)
    requires Whole(x, y) && Whole(y, x) && Enabled(x, y, act) && Orderly(x, act) && KeepsFins(x, act)
    requires x.sender.nextSeqno < TWO31 && y.sender.nextSeqno < TWO31
    ensures Whole(Do(x, act), y) && Whole(y, Do(x, act))
  {
    DoSound(x, y, act);
    SenderWindows(x, y, act);
    ReceiverWindows(x, y, act);
  }

  // Runs

  /** A run in which no empty acknowledgment is sent by connecting, and the first FIN to reach an endpoint comes with
      data or after the byte before it. */
  ghost predicate Disciplined(p: Pair, steps: seq<Step>)
    requires p.Valid()
  {
    steps == [] ||
    var q, step := Run(p, steps[..|steps| - 1]), steps[|steps| - 1];
    var x := if step.byA then q.a else q.b;
    && Disciplined(p, steps[..|steps| - 1])
    && Orderly(x, step.act) && KeepsFins(x, step.act)
  }

  lemma {:induction false} RunSound(p: Pair, steps: seq<Step>)
    requires p.Valid() && Whole(p.a, p.b) && Whole(p.b, p.a) && Legal(p, steps) && Disciplined(p, steps)
    requires Run(p, steps).a.sender.nextSeqno < TWO31 && Run(p, steps).b.sender.nextSeqno < TWO31
    ensures Whole(Run(p, steps).a, Run(p, steps).b) && Whole(Run(p, steps).b, Run(p, steps).a)
  {
    if steps != [] {
      var before, step := steps[..|steps| - 1], steps[|steps| - 1];
      var q := Run(p, before);
      DoMonotone(if step.byA then q.a else q.b, step.act);
      RunSound(p, before);
      if step.byA { DoWhole(q.a, q.b, step.act); } else { DoWhole(q.b, q.a, step.act); }
    }
  }

  /** The receiver's output has ended exactly when the FIN is there and every byte of the stream. */
  ghost predicate EndsWithStream(s: Sender, r: Receiver)
  {
    r.asm.out.ended <==> r.end && r.asm.out.history == s.stream.history
  }

  lemma SoundAcks(x: Connection, y: Connection)
    requires Whole(x, y) && x.sender.nextSeqno < TWO31
    ensures AllAcked(x.sender, y.receiver) && EndsWithStream(x.sender, y.receiver)
    ensures InsideWindow(x.sender, y.receiver)
  {
    AllAckedNow(Joined(x, y));
  }

  lemma NewWhole(p: Pair, rtA: u16, recvA: nat, sendA: nat, isnA: u32,
                 rtB: u16, recvB: nat, sendB: nat, isnB: u32)
    requires p == NewPair(rtA, recvA, sendA, isnA, rtB, recvB, sendB, isnB)
    ensures Whole(p.a, p.b) && Whole(p.b, p.a)
  {
    NewSound(p.a, p.b, rtA, recvA, sendA, isnA, rtB, recvB, sendB, isnB);
    NewSound(p.b, p.a, rtB, recvB, sendB, isnB, rtA, recvA, sendA, isnA);
    NewWindows(p.a, p.b, rtA, recvA, sendA, isnA, rtB, recvB, sendB, isnB);
    NewWindows(p.b, p.a, rtB, recvB, sendB, isnB, rtA, recvA, sendA, isnA);
  }

  /** Full-duplex acknowledgment soundness: whatever either endpoint has dropped from its store, up to the FIN, the
      other has assembled, the output of each ends exactly with the other's stream, and no byte is sent past what
      the other accepts, but for a probe of a closed window. */
  lemma DuplexAckSoundness(p: Pair, rtA: u16, recvA: nat, sendA: nat, isnA: u32,
                           rtB: u16, recvB: nat, sendB: nat, isnB: u32, steps: seq<Step>)
    requires p == NewPair(rtA, recvA, sendA, isnA, rtB, recvB, sendB, isnB)
    requires Legal(p, steps) && Disciplined(p, steps)
    requires Run(p, steps).a.sender.nextSeqno < TWO31 && Run(p, steps).b.sender.nextSeqno < TWO31
    ensures var q := Run(p, steps);
            && AllAcked(q.a.sender, q.b.receiver) && EndsWithStream(q.a.sender, q.b.receiver)
            && AllAcked(q.b.sender, q.a.receiver) && EndsWithStream(q.b.sender, q.a.receiver)
            && InsideWindow(q.a.sender, q.b.receiver) && InsideWindow(q.b.sender, q.a.receiver)
  {
    NewWhole(p, rtA, recvA, sendA, isnA, rtB, recvB, sendB, isnB);
    RunSound(p, steps);
    SoundAcks(Run(p, steps).a, Run(p, steps).b);
    SoundAcks(Run(p, steps).b, Run(p, steps).a);
  }
}
