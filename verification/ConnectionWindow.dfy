/** What a connection sends against the window of its peer: every operation keeps the sender inside the peer's
    window and the FIN where it was cut. */
module ConnectionWindow {
  import opened Machine
  import opened Segments
  import opened SenderInvariant
  import opened SenderSteps
  import opened SenderProgress
  import opened SenderCut
  import opened TcpConnection
  import opened ConnectionInvariant
  import opened ConnectionRuns
  import opened TwoParty
  import opened TwoPartySafety
  import opened TwoPartyWindow

  /** The connection against its peer's receiver and the acknowledgments the peer has sent. */
  ghost predicate Logged(c: Connection, r: Receiver, acks: set<AckMessage>)
  {
    ReceiverOk(r, c.sender) && LogInv(c.sender, c.segmentsOut, r, acks)
  }

  lemma SegCutSame(seg: TcpSegment, other: TcpSegment, s: Sender, piggy: bool)
    requires SegCut(seg, s, piggy) && SameContent(seg, other)
    ensures SegCut(other, s, piggy)
  {
  }

  /** Segments leave the queue with the content they had. */
  lemma OutLogged(c: Connection, out: seq<TcpSegment>, left: seq<TcpSegment>, r: Receiver, acks: set<AckMessage>)
    requires Logged(c, r, acks) && forall seg <- left :: seg in c.sender.segmentsOut
    requires forall seg <- out :: exists q <- c.sender.segmentsOut :: SameContent(q, seg)
    ensures Logged(c.(segmentsOut := c.segmentsOut + out, sender := c.sender.(segmentsOut := left)), r, acks)
  {
    var s, t := c.sender, c.sender.(segmentsOut := left);
    if s.nextSeqno < TWO31 {
      var piggy :| CutInv(s, c.segmentsOut, piggy) && FinInWindow(s, r, piggy);
      forall seg <- c.segmentsOut + out ensures SegCut(seg, t, piggy) {
        if seg in out {
          var q :| q in s.segmentsOut && SameContent(q, seg);
          SegCutSame(q, seg, s, piggy);
        }
      }
      assert CutInv(t, c.segmentsOut + out, piggy) && FinInWindow(t, r, piggy);
    }
  }

  lemma FlushLogged(c: Connection, r: Receiver, acks: set<AckMessage>)
    requires c.Valid() && Logged(c, r, acks)
    ensures Logged(c.FlushBuffer(), r, acks)
  {
    var segs := c.sender.segmentsOut;
    var out := StampAll(segs, c.receiver);
    forall seg <- out ensures exists q <- segs :: SameContent(q, seg) {
      var i :| 0 <= i < |out| && out[i] == seg;
      assert segs[i] in segs && SameContent(segs[i], seg);
    }
    OutLogged(c, out, [], r, acks);
  }

  lemma FrontLogged(c: Connection, seg: TcpSegment, r: Receiver, acks: set<AckMessage>)
    requires Logged(c, r, acks) && c.sender.segmentsOut != [] && SameContent(c.sender.segmentsOut[0], seg)
    ensures Logged(c.TakeFront(seg), r, acks)
  {
    assert c.sender.segmentsOut[0] in c.sender.segmentsOut;
    OutLogged(c, [seg], c.sender.segmentsOut[1..], r, acks);
  }

  /** The sender moves on; what has gone out stays. */
  lemma FillLogged(c: Connection, s: Sender, r: Receiver, acks: set<AckMessage>)
    requires Inv(s) && Progress(c.sender, s) && Logged(c.(sender := s), r, acks)
    requires forall seg <- c.segmentsOut :: Sendable(seg, c.sender)
    ensures Logged(c.(sender := s.FillWindow()), r, acks)
  {
    forall seg <- c.segmentsOut ensures Sendable(seg, s) { SendableGrow(seg, c.sender, s); }
    FillLog(s, c.segmentsOut, r, acks);
    FillProgress(s);
    ReceiverOkGrows(r, s, s.FillWindow());
  }

  lemma WriteLogged(c: Connection, data: seq<byte>, peerSyn: bool, r: Receiver, acks: set<AckMessage>)
    requires ConnInv(c, peerSyn) && MayWrite(c.sender, data) && Logged(c, r, acks)
    ensures Logged(c.Write(data), r, acks)
  {
    if c.Active() {
      var s := c.sender.(stream := c.sender.stream.Write(data));
      WriteInv(c.sender, data);
      WriteLog(c.sender, data, c.segmentsOut, r, acks);
      ReceiverOkGrows(r, c.sender, s);
      FillLogged(c, s, r, acks);
      FlushLogged(c.(sender := s.FillWindow()), r, acks);
    }
  }

  lemma EndInputLogged(c: Connection, peerSyn: bool, r: Receiver, acks: set<AckMessage>)
    requires ConnInv(c, peerSyn) && Logged(c, r, acks)
    ensures Logged(c.EndInputStream(), r, acks)
  {
    if c.Active() {
      var s := c.sender.(stream := c.sender.stream.(ended := true));
      CloseInv(c.sender);
      CloseLog(c.sender, c.segmentsOut, r, acks);
      ReceiverOkGrows(r, c.sender, s);
      FillLogged(c, s, r, acks);
      FlushLogged(c.(sender := s.FillWindow()), r, acks);
    }
  }

  lemma ConnectLogged(c: Connection, peerSyn: bool, r: Receiver, acks: set<AckMessage>)
    requires ConnInv(c, peerSyn) && Logged(c, r, acks)
    ensures Logged(c.Connect(), r, acks)
  {
    FillLogged(c, c.sender, r, acks);
    var d := c.(sender := c.sender.FillWindow());
    if d.sender.segmentsOut != [] { FrontLogged(d, d.sender.segmentsOut[0], r, acks); }
  }

  /** The error flags play no part. */
  lemma ErrorsLogged(c: Connection, r: Receiver, acks: set<AckMessage>)
    requires Logged(c, r, acks)
    ensures Logged(c.SetErrors(), r, acks)
  {
    var s, t := c.sender, c.SetErrors().sender;
    if s.nextSeqno < TWO31 {
      var piggy :| CutInv(s, c.segmentsOut, piggy) && FinInWindow(s, r, piggy);
      SameLog(s, t, c.segmentsOut, c.segmentsOut, r, acks, piggy);
    }
  }

  lemma EmptyLogged(c: Connection, r: Receiver, acks: set<AckMessage>)
    requires Logged(c, r, acks)
    ensures Logged(c.(sender := c.sender.SendEmptySegment()), r, acks)
  {
    EmptyLog(c.sender, c.segmentsOut, r, acks);
  }

  lemma ShutdownLogged(c: Connection, r: Receiver, acks: set<AckMessage>)
    requires c.Valid() && Logged(c, r, acks)
    ensures Logged(c.UncleanShutdown(), r, acks)
  {
    ErrorsLogged(c, r, acks);
    var d := c.SetErrors();
    EmptyLogged(d, r, acks);
    var e := if d.sender.segmentsOut == [] then d.(sender := d.sender.SendEmptySegment()) else d;
    var front := e.sender.segmentsOut[0];
    var h := if c.receiver.Ackno().Some? then front.header.(ackno := c.receiver.Ackno().value) else front.header;
    FrontLogged(e, front.(header := h.(rst := true)), r, acks);
  }

  lemma TickLogged(c: Connection, ms: nat, r: Receiver, acks: set<AckMessage>)
    requires c.Valid() && Logged(c, r, acks)
    ensures Logged(c.Tick(ms), r, acks)
  {
    if c.Active() {
      var d := c.Elapse(ms);
      TickLog(c.sender, ms, c.segmentsOut, r, acks);
      ReceiverOkGrows(r, c.sender, d.sender);
      if d.sender.timer.retransmissions > MAX_RETX_ATTEMPTS { ShutdownLogged(d, r, acks); }
      FlushLogged(d.CheckRetransmissions(), r, acks);
    }
  }

  /** Everything but the reception of a segment. */
  lemma LocalLogged(c: Connection, act: Act, peerSyn: bool, r: Receiver, acks: set<AckMessage>)
    requires ConnInv(c, peerSyn) && !act.Receive? && MayDo(c, act) && Logged(c, r, acks)
    ensures Logged(Do(c, act), r, acks)
  {
    match act
    case Write(data) => WriteLogged(c, data, peerSyn, r, acks);
    case EndInput => EndInputLogged(c, peerSyn, r, acks);
    case Connect => ConnectLogged(c, peerSyn, r, acks);
    case Tick(ms) => TickLogged(c, ms, r, acks);
    case Read(n) =>
  }

  /** A segment whose acknowledgment, if any, is one the peer has sent. */
  lemma AbsorbLogged(c: Connection, seg: TcpSegment, peerSyn: bool, r: Receiver, acks: set<AckMessage>)
    requires ConnInv(c, peerSyn) && Logged(c, r, acks) && c.sender.nextSeqno < TWO31
    requires seg.header.ack ==> c.sender.syn && AckMessage(seg.header.ackno, seg.header.win) in acks
    ensures Logged(c.Absorb(seg), r, acks)
  {
    if seg.header.ack {
      var s' := c.sender.AckReceived(seg.header.ackno, seg.header.win);
      AckLog(c.sender, AckMessage(seg.header.ackno, seg.header.win), c.segmentsOut, r, acks);
      AckAddsPlain(c.sender, seg.header.ackno, seg.header.win);
      ReceiverOkGrows(r, c.sender, s');
    }
  }

  lemma ReplyLogged(d: Connection, seg: TcpSegment, peerSyn: bool, r: Receiver, acks: set<AckMessage>)
    requires Sends(d, peerSyn) && Logged(d, r, acks)
    ensures Logged(d.Reply(seg), r, acks)
  {
    FillLogged(d, d.sender, r, acks);
    EmptyLogged(d, r, acks);
    var s := if seg.header.syn && !seg.header.ack && !d.initiator
             then d.sender.FillWindow() else d.sender.SendEmptySegment();
    if s.segmentsOut != [] {
      var e, front := d.(sender := s), s.segmentsOut[0];
      FrontLogged(e, front.(header := e.ReplyHeader(front.header)), r, acks);
    }
  }

  lemma AnswerLogged(d: Connection, seg: TcpSegment, peerSyn: bool, r: Receiver, acks: set<AckMessage>)
    requires Sends(d, peerSyn) && Logged(d, r, acks)
    ensures Logged(d.Answer(seg), r, acks)
  {
    if seg.Length() > 0 { ReplyLogged(d, seg, peerSyn, r, acks); } else { FlushLogged(d, r, acks); }
  }
}
