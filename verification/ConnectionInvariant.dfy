/** What every operation of a connection keeps, whatever the network delivers. */
module ConnectionInvariant {
  import opened Machine
  import opened Segments
  import opened SenderInvariant
  import opened SenderSteps
  import opened SenderProgress
  import opened TcpConnection

  /** An acknowledgment is sent only when the peer's SYN is out. */
  predicate AcksNeedPeer(segs: seq<TcpSegment>, peerSyn: bool)
  {
    forall seg <- segs :: seg.header.ack && !seg.header.rst ==> peerSyn
  }

  /** What `send_empty_segment` makes: nothing but the flag and a sequence number. */
  predicate EmptyAck(seg: TcpSegment)
  {
    seg == EMPTY_SEGMENT.(header := DEFAULT_HEADER.(ack := true, seqno := seg.header.seqno))
  }

  /** The segments waiting in the sender's queue carry no flag of the connection, or are empty acknowledgments. */
  predicate QueueOk(segs: seq<TcpSegment>, peerSyn: bool)
  {
    forall seg <- segs :: Plain(seg) || (EmptyAck(seg) && peerSyn)
  }

  /** Both streams are in error: the connection is dead. */
  predicate Failed(c: Connection)
  {
    c.sender.stream.error && c.receiver.asm.out.error
  }

  /** The retransmission count stays at most eight, or the connection has given up at nine. */
  ghost predicate Persists(c: Connection)
  {
    || c.sender.timer.retransmissions <= MAX_RETX_ATTEMPTS
    || (c.sender.timer.retransmissions == MAX_RETX_ATTEMPTS + 1 && Failed(c))
  }

  /** Everything sent is a part of the sender's stream. */
  ghost predicate Sends(c: Connection, peerSyn: bool)
  {
    && Inv(c.sender) && c.receiver.Valid()
    && (forall seg <- c.segmentsOut :: Sendable(seg, c.sender))
    && QueueOk(c.sender.segmentsOut, peerSyn) && AcksNeedPeer(c.segmentsOut, peerSyn)
  }

  ghost predicate ConnInv(c: Connection, peerSyn: bool)
  {
    Sends(c, peerSyn) && (c.receiver.syn ==> peerSyn) && Persists(c)
  }

  lemma ProgressTrans(s: Sender, t: Sender, u: Sender)
    requires Progress(s, t) && Progress(t, u)
    ensures Progress(s, u)
  {
  }

  /** The segment carries the same part of the stream. */
  predicate SameContent(seg: TcpSegment, other: TcpSegment)
  {
    && seg.payload == other.payload && seg.header.seqno == other.header.seqno
    && seg.header.syn == other.header.syn && seg.header.fin == other.header.fin
  }

  lemma SendableSame(seg: TcpSegment, other: TcpSegment, s: Sender)
    requires Sendable(seg, s) && SameContent(seg, other)
    ensures Sendable(other, s)
  {
    var from :| 0 <= from && from + seg.Length() <= s.nextSeqno &&
                SentAt(seg, from, s.isn, s.stream.history, s.finSent);
    assert SentAt(other, from, s.isn, s.stream.history, s.finSent);
  }

  /** The queue is not part of what the sender promises, except that all of it may be sent. */
  lemma QueueInv(s: Sender, segs: seq<TcpSegment>)
    requires Inv(s) && forall seg <- segs :: seg in s.segmentsOut
    ensures Inv(s.(segmentsOut := segs)) && Progress(s, s.(segmentsOut := segs))
  {
    var t := s.(segmentsOut := segs);
    forall seg <- segs ensures Sendable(seg, t) {
      SendableGrow(seg, s, t);
    }
  }

  /** The sender moves on; the rest of the connection does not change. */
  lemma SenderMoves(c: Connection, s': Sender, peerSyn: bool)
    requires Sends(c, peerSyn) && Inv(s') && Progress(c.sender, s') && QueueOk(s'.segmentsOut, peerSyn)
    ensures Sends(c.(sender := s'), peerSyn)
  {
    forall seg <- c.segmentsOut ensures Sendable(seg, s') {
      SendableGrow(seg, c.sender, s');
    }
  }

  /** Segments go out with the content they were queued with. */
  lemma Emits(c: Connection, out: seq<TcpSegment>, left: seq<TcpSegment>, peerSyn: bool)
    requires Sends(c, peerSyn) && AcksNeedPeer(out, peerSyn)
    requires forall seg <- left :: seg in c.sender.segmentsOut
    requires forall seg <- out :: Sendable(seg, c.sender)
    ensures var c' := c.(segmentsOut := c.segmentsOut + out, sender := c.sender.(segmentsOut := left));
            Sends(c', peerSyn) && Progress(c.sender, c'.sender)
  {
    var c' := c.(segmentsOut := c.segmentsOut + out, sender := c.sender.(segmentsOut := left));
    QueueInv(c.sender, left);
    forall seg <- c'.segmentsOut ensures Sendable(seg, c'.sender) {
      assert Sendable(seg, c.sender);
      SendableGrow(seg, c.sender, c'.sender);
    }
  }

  lemma FlushSends(c: Connection, peerSyn: bool)
    requires Sends(c, peerSyn) && (c.receiver.syn ==> peerSyn)
    ensures Sends(c.FlushBuffer(), peerSyn) && Progress(c.sender, c.FlushBuffer().sender)
  {
    var segs := c.sender.segmentsOut;
    var out := StampAll(segs, c.receiver);
    forall seg <- out ensures Sendable(seg, c.sender) && (seg.header.ack && !seg.header.rst ==> peerSyn) {
      var i :| 0 <= i < |out| && out[i] == seg;
      assert segs[i] in segs;
      SendableSame(segs[i], seg, c.sender);
    }
    Emits(c, out, [], peerSyn);
  }

  lemma TakeFrontSends(c: Connection, seg: TcpSegment, peerSyn: bool)
    requires Sends(c, peerSyn) && c.sender.segmentsOut != [] && SameContent(c.sender.segmentsOut[0], seg)
    requires seg.header.ack && !seg.header.rst ==> peerSyn
    ensures Sends(c.TakeFront(seg), peerSyn) && Progress(c.sender, c.TakeFront(seg).sender)
  {
    var front := c.sender.segmentsOut[0];
    assert front in c.sender.segmentsOut;
    SendableSame(front, seg, c.sender);
    Emits(c, [seg], c.sender.segmentsOut[1..], peerSyn);
  }

  /** What filling the window adds to the queue carries no acknowledgment; it leaves the count alone. */
  ghost predicate AddsPlain(s: Sender, s': Sender)
  {
    && s'.timer.retransmissions == s.timer.retransmissions
    && s'.stream.error == s.stream.error
    && (forall seg <- s'.segmentsOut :: seg in s.segmentsOut || Plain(seg))
  }

  lemma SendAddsPlain(s: Sender, segment: TcpSegment)
    requires Plain(segment)
    ensures AddsPlain(s, s.SendSegment(segment))
  {
  }

  lemma {:induction false} LoopAddsPlain(s: Sender, segment: TcpSegment)
    requires Inv(s) && s.syn && (s.finSent || segment.header == DEFAULT_HEADER)
    ensures AddsPlain(s, s.FillLoop(segment).0)
    decreases s.stream.Size()
  {
    if s.stream.Size() > 0 && s.recvWdnSz > 0 {
      var (t, seg) := s.FillOne(segment);
      FillOneInv(s, segment);
      FillOneIs(s, segment);
      SendAddsPlain(Taken(s), TakenSegment(s));
      LoopAddsPlain(t, seg);
    }
  }

  lemma FillAddsPlain(s: Sender)
    requires Inv(s)
    ensures AddsPlain(s, s.FillWindow())
  {
    if !s.syn {
      SendAddsPlain(s.(syn := true), EMPTY_SEGMENT.(header := DEFAULT_HEADER.(syn := true)));
    } else {
      var (t, seg) := s.FillLoop(EMPTY_SEGMENT);
      LoopAddsPlain(s, EMPTY_SEGMENT);
      FillLoopInv(s, EMPTY_SEGMENT);
      if !t.finSent && t.stream.Eof() && t.recvWdnSz > 0 {
        SendAddsPlain(t.(recvWdnSz := Trunc16(t.recvWdnSz - 1)), seg.(header := seg.header.(fin := true)));
      }
    }
  }

  lemma FillMoves(c: Connection, s: Sender, peerSyn: bool)
    requires Sends(c, peerSyn) && Inv(s) && Progress(c.sender, s) && QueueOk(s.segmentsOut, peerSyn)
    ensures var s' := s.FillWindow();
            && Sends(c.(sender := s'), peerSyn) && Progress(c.sender, s')
            && s'.timer.retransmissions == s.timer.retransmissions && s'.stream.error == s.stream.error
  {
    FillWindowInv(s);
    FillProgress(s);
    ProgressTrans(c.sender, s, s.FillWindow());
    FillAddsPlain(s);
    SenderMoves(c, s.FillWindow(), peerSyn);
  }

  lemma WriteKeeps(c: Connection, data: seq<byte>, peerSyn: bool)
    requires ConnInv(c, peerSyn) && MayWrite(c.sender, data)
    ensures ConnInv(c.Write(data), peerSyn) && Progress(c.sender, c.Write(data).sender)
  {
    if c.Active() {
      var s := c.sender.(stream := c.sender.stream.Write(data));
      WriteInv(c.sender, data);
      FillMoves(c, s, peerSyn);
      FlushSends(c.(sender := s.FillWindow()), peerSyn);
    }
  }

  lemma EndInputKeeps(c: Connection, peerSyn: bool)
    requires ConnInv(c, peerSyn)
    ensures ConnInv(c.EndInputStream(), peerSyn) && Progress(c.sender, c.EndInputStream().sender)
  {
    if c.Active() {
      var s := c.sender.(stream := c.sender.stream.(ended := true));
      CloseInv(c.sender);
      FillMoves(c, s, peerSyn);
      FlushSends(c.(sender := s.FillWindow()), peerSyn);
    }
  }

  lemma ConnectKeeps(c: Connection, peerSyn: bool)
    requires ConnInv(c, peerSyn)
    ensures ConnInv(c.Connect(), peerSyn) && Progress(c.sender, c.Connect().sender)
  {
    FillMoves(c, c.sender, peerSyn);
    var d := c.(sender := c.sender.FillWindow());
    if d.sender.segmentsOut != [] {
      assert d.sender.segmentsOut[0] in d.sender.segmentsOut;
      TakeFrontSends(d, d.sender.segmentsOut[0], peerSyn);
    }
  }

  lemma ErrorsKeep(c: Connection, peerSyn: bool)
    requires Sends(c, peerSyn)
    ensures Sends(c.SetErrors(), peerSyn) && Progress(c.sender, c.SetErrors().sender)
  {
    var s := c.sender.(stream := c.sender.stream.(error := true));
    assert Inv(s) by { QueuedGrow(c.sender, s, []); }
    SenderMoves(c, s, peerSyn);
  }

  lemma SendableQueue(seg: TcpSegment, s: Sender, t: Sender)
    requires Sendable(seg, s) && t == s.(segmentsOut := t.segmentsOut)
    ensures Sendable(seg, t)
  {
    SendableGrow(seg, s, t);
  }

  /** With an empty queue, an empty segment goes out with RST. */
  lemma ResetSends(c: Connection, peerSyn: bool, out: TcpSegment)
    requires Sends(c, peerSyn) && c.sender.segmentsOut == [] && out.header.rst
    requires SameContent(c.sender.SendEmptySegment().segmentsOut[0], out)
    ensures var d := c.(sender := c.sender.SendEmptySegment()).TakeFront(out);
            Sends(d, peerSyn) && Progress(c.sender, d.sender)
  {
    var s := c.sender.SendEmptySegment();
    SendEmptyInv(c.sender);
    assert Sendable(s.segmentsOut[0], s);
    SendableSame(s.segmentsOut[0], out, s);
    SendableQueue(out, s, c.sender);
    Emits(c, [out], [], peerSyn);
    assert c.(sender := s).TakeFront(out).sender.segmentsOut == [];
  }

  lemma ShutdownSends(c: Connection, peerSyn: bool)
    requires Sends(c, peerSyn)
    ensures Sends(c.UncleanShutdown(), peerSyn) && Progress(c.sender, c.UncleanShutdown().sender)
  {
    var d := c.SetErrors();
    ErrorsKeep(c, peerSyn);
    var e := if d.sender.segmentsOut == [] then d.(sender := d.sender.SendEmptySegment()) else d;
    var front := e.sender.segmentsOut[0];
    var h := if c.receiver.Ackno().Some? then front.header.(ackno := c.receiver.Ackno().value) else front.header;
    var out := front.(header := h.(rst := true));
    if d.sender.segmentsOut == [] { ResetSends(d, peerSyn, out); } else { TakeFrontSends(d, out, peerSyn); }
  }

  lemma ElapseKeeps(c: Connection, ms: nat, peerSyn: bool)
    requires Sends(c, peerSyn)
    ensures var d := c.Elapse(ms);
            && Sends(d, peerSyn) && Progress(c.sender, d.sender)
            && d.sender.timer.retransmissions <= c.sender.timer.retransmissions + 1
            && d.sender.stream == c.sender.stream
  {
    var s := c.sender.Tick(ms);
    TickInv(c.sender, ms);
    TickRetransmits(c.sender, ms);
    SenderMoves(c, s, peerSyn);
  }

  /** A tick either keeps the count at eight or less, or ends the connection at nine. */
  lemma TickKeeps(c: Connection, ms: nat, peerSyn: bool)
    requires ConnInv(c, peerSyn)
    ensures ConnInv(c.Tick(ms), peerSyn) && Progress(c.sender, c.Tick(ms).sender)
  {
    if c.Active() {
      var d := c.Elapse(ms);
      ElapseKeeps(c, ms, peerSyn);
      var e := d.CheckRetransmissions();
      if d.sender.timer.retransmissions > MAX_RETX_ATTEMPTS {
        ShutdownSends(d, peerSyn);
      }
      FlushSends(e, peerSyn);
      ProgressTrans(c.sender, d.sender, e.sender);
      ProgressTrans(c.sender, e.sender, e.FlushBuffer().sender);
    }
  }

  /** Acknowledgments come only from a peer that has our SYN, and only our peer's segments take up space. */
  predicate Acceptable(c: Connection, seg: TcpSegment, peerSyn: bool)
  {
    && (seg.header.ack && !seg.header.rst ==> c.sender.syn)
    && (seg.Length() > 0 ==> peerSyn)
  }

  lemma AckAddsPlain(s: Sender, ackno: u32, window: u16)
    requires Inv(s) && s.syn
    ensures var s' := s.AckReceived(ackno, window);
            && Inv(s') && Progress(s, s') && s'.timer.retransmissions <= s.timer.retransmissions
            && s'.stream.error == s.stream.error
            && forall seg <- s'.segmentsOut :: seg in s.segmentsOut || Plain(seg)
  {
    var abs := AckAbs(s, ackno);
    AckReceivedIs(s, ackno, window);
    AckReceivedInv(s, ackno, window);
    AckProgress(s, abs, window);
    if abs <= s.nextSeqno <= abs + window {
      AcknowledgeInv(s, abs, window);
      FillAddsPlain(s.Acknowledge(abs, window));
    }
  }

  lemma AbsorbKeeps(c: Connection, seg: TcpSegment, peerSyn: bool)
    requires ConnInv(c, peerSyn) && Acceptable(c, seg, peerSyn) && !seg.header.rst
    ensures var d := c.Absorb(seg);
            && Sends(d, peerSyn) && (d.receiver.syn ==> peerSyn) && Progress(c.sender, d.sender)
            && d.sender.timer.retransmissions <= c.sender.timer.retransmissions
            && d.sender.stream.error == c.sender.stream.error
  {
    var r := c.receiver.SegmentReceived(seg);
    assert r.syn ==> c.receiver.syn || seg.header.syn;
    var d := c.(receiver := r);
    if seg.header.ack {
      AckAddsPlain(c.sender, seg.header.ackno, seg.header.win);
      SenderMoves(d, c.sender.AckReceived(seg.header.ackno, seg.header.win), peerSyn);
    }
  }

  lemma ReplyKeeps(c: Connection, seg: TcpSegment, peerSyn: bool)
    requires Sends(c, peerSyn) && peerSyn
    ensures var d := c.Reply(seg);
            && Sends(d, peerSyn) && Progress(c.sender, d.sender) && d.receiver == c.receiver
            && d.sender.timer.retransmissions == c.sender.timer.retransmissions
            && d.sender.stream.error == c.sender.stream.error
  {
    var s := if seg.header.syn && !seg.header.ack && !c.initiator
             then c.sender.FillWindow() else c.sender.SendEmptySegment();
    if seg.header.syn && !seg.header.ack && !c.initiator {
      FillMoves(c, c.sender, peerSyn);
    } else {
      SendEmptyInv(c.sender);
      SenderMoves(c, s, peerSyn);
    }
    var d := c.(sender := s);
    if s.segmentsOut != [] {
      var front := s.segmentsOut[0];
      TakeFrontSends(d, front.(header := d.ReplyHeader(front.header)), peerSyn);
    }
  }

  /** What is sent in answer to a segment that has been absorbed. */
  lemma AnswerKeeps(d: Connection, seg: TcpSegment, peerSyn: bool)
    requires Sends(d, peerSyn) && (d.receiver.syn ==> peerSyn) && (seg.Length() > 0 ==> peerSyn)
    ensures var e := d.Answer(seg);
            && Sends(e, peerSyn) && Progress(d.sender, e.sender) && e.receiver == d.receiver
            && e.sender.timer.retransmissions == d.sender.timer.retransmissions
            && e.sender.stream.error == d.sender.stream.error
  {
    if seg.Length() > 0 { ReplyKeeps(d, seg, peerSyn); } else { FlushSends(d, peerSyn); }
  }

  lemma AbsorbErrors(c: Connection, seg: TcpSegment)
    requires c.Valid()
    ensures c.Absorb(seg).receiver.asm.out.error == c.receiver.asm.out.error
  {
  }

  lemma SegmentKeeps(c: Connection, seg: TcpSegment, peerSyn: bool)
    requires ConnInv(c, peerSyn) && Acceptable(c, seg, peerSyn) && !seg.header.rst
    ensures var d := c.Absorb(seg);
            var e := d.Answer(seg);
            ConnInv(e, peerSyn) && Progress(c.sender, e.sender)
  {
    AbsorbKeeps(c, seg, peerSyn);
    AbsorbErrors(c, seg);
    var d := c.Absorb(seg);
    AnswerKeeps(d, seg, peerSyn);
    var e := d.Answer(seg);
    ProgressTrans(c.sender, d.sender, e.sender);
  }

  lemma PassiveKeeps(c: Connection, peerSyn: bool)
    requires ConnInv(c, peerSyn)
    ensures ConnInv(c.PassiveClose(), peerSyn) && c.PassiveClose().sender == c.sender
  {
  }

  lemma ReceiveActive(c: Connection, seg: TcpSegment)
    requires c.Valid() && c.Active() && !seg.header.rst
    ensures var d := c.(sinceLast := 0).Absorb(seg);
            c.SegmentReceived(seg) == d.Answer(seg).PassiveClose()
  {
  }

  lemma ResetKeeps(c: Connection, seg: TcpSegment, peerSyn: bool)
    requires ConnInv(c, peerSyn) && (seg.header.rst || !c.Active())
    ensures ConnInv(c.SegmentReceived(seg), peerSyn) && Progress(c.sender, c.SegmentReceived(seg).sender)
  {
    if c.Active() { ErrorsKeep(c.(sinceLast := 0), peerSyn); }
  }

  /** A received segment can only lower the retransmission count. */
  lemma ReceiveKeeps(c: Connection, seg: TcpSegment, peerSyn: bool)
    requires ConnInv(c, peerSyn) && Acceptable(c, seg, peerSyn)
    ensures ConnInv(c.SegmentReceived(seg), peerSyn) && Progress(c.sender, c.SegmentReceived(seg).sender)
  {
    if seg.header.rst || !c.Active() {
      ResetKeeps(c, seg, peerSyn);
    } else {
      var b := c.(sinceLast := 0);
      var d := b.Absorb(seg);
      SegmentKeeps(b, seg, peerSyn);
      ReceiveActive(c, seg);
      PassiveKeeps(d.Answer(seg), peerSyn);
    }
  }

  lemma ConnInvGrows(c: Connection, p: bool, q: bool)
    requires ConnInv(c, p) && (p ==> q)
    ensures ConnInv(c, q)
  {
  }
}
