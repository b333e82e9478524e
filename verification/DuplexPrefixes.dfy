/** Prefix safety between two complete connections, whatever the applications do. */
module DuplexPrefixes {
  import opened Machine
  import opened Segments
  import opened TcpConnection
  import opened ConnectionInvariant
  import opened ConnectionRuns
  import opened Duplex
  import opened Prefixes

  /** Everything the connection has sent, queued or stored is in its place. */
  ghost predicate Outgoing(c: Connection, n: nat)
  {
    Placing(c.sender, n) && c.receiver.Valid() && forall seg <- c.segmentsOut :: Fits(seg, c.sender, n)
  }

  /** The sender moves on; what has gone out stays. */
  ghost predicate Moves(c: Connection, n: nat, c': Connection, n': nat)
  {
    Outgoing(c', n') && Advances(c.sender, n, c'.sender, n')
  }

  lemma MovesOn(c: Connection, n: nat, d: Connection, m: nat, e: Connection, k: nat)
    requires Moves(c, n, d, m) && Moves(d, m, e, k)
    ensures Moves(c, n, e, k)
  {
    AdvancesOn(c.sender, n, d.sender, m, e.sender, k);
  }

  lemma SenderOut(c: Connection, n: nat, c': Connection, n': nat)
    requires Outgoing(c, n) && Placing(c'.sender, n') && Advances(c.sender, n, c'.sender, n')
    requires c'.segmentsOut == c.segmentsOut && c'.receiver.Valid()
    ensures Moves(c, n, c', n')
  {
    forall seg <- c'.segmentsOut ensures Fits(seg, c'.sender, n') { FitsStill(seg, c.sender, n, c'.sender, n'); }
  }

  lemma FitsSame(seg: TcpSegment, other: TcpSegment, s: Sender, n: nat)
    requires Fits(seg, s, n) && SameContent(seg, other)
    ensures Fits(other, s, n)
  {
    var from: nat :| Placed(seg, from, s, n);
    assert Placed(other, from, s, n);
  }

  /** Segments leave the queue with the content they had. */
  lemma QueueOut(c: Connection, n: nat, out: seq<TcpSegment>, left: seq<TcpSegment>, c': Connection)
    requires Outgoing(c, n) && forall seg <- left :: seg in c.sender.segmentsOut
    requires forall seg <- out :: exists q <- c.sender.segmentsOut :: SameContent(q, seg)
    requires c'.sender == c.sender.(segmentsOut := left) && c'.segmentsOut == c.segmentsOut + out
    requires c'.receiver == c.receiver
    ensures Moves(c, n, c', n)
  {
    SamePlaces(c.sender, n, c'.sender);
    forall seg <- c'.segmentsOut ensures Fits(seg, c'.sender, n) {
      if seg in out {
        var q :| q in c.sender.segmentsOut && SameContent(q, seg);
        FitsSame(q, seg, c.sender, n);
      }
      FitsStill(seg, c.sender, n, c'.sender, n);
    }
  }

  lemma FlushOut(c: Connection, n: nat)
    requires Outgoing(c, n)
    ensures Moves(c, n, c.FlushBuffer(), n)
  {
    var segs := c.sender.segmentsOut;
    var out := StampAll(segs, c.receiver);
    forall seg <- out ensures exists q <- segs :: SameContent(q, seg) {
      var i :| 0 <= i < |out| && out[i] == seg;
      assert segs[i] in segs && SameContent(segs[i], seg);
    }
    QueueOut(c, n, out, [], c.FlushBuffer());
  }

  lemma FrontOut(c: Connection, n: nat, seg: TcpSegment, c': Connection)
    requires Outgoing(c, n) && c.sender.segmentsOut != [] && SameContent(c.sender.segmentsOut[0], seg)
    requires c' == c.TakeFront(seg).(initiator := c'.initiator)
    ensures Moves(c, n, c', n)
  {
    assert c.sender.segmentsOut[0] in c.sender.segmentsOut;
    QueueOut(c, n, [seg], c.sender.segmentsOut[1..], c');
  }

  // Operations

  /** The sender takes on `s` and fills its window. */
  lemma FillOut(c: Connection, n: nat, s: Sender) returns (n': nat)
    requires Outgoing(c, n) && Placing(s, n) && Advances(c.sender, n, s, n)
    ensures Moves(c, n, c.(sender := s.FillWindow()), n')
  {
    n' := FillPlaces(s, n);
    AdvancesOn(c.sender, n, s, n, s.FillWindow(), n');
    SenderOut(c, n, c.(sender := s.FillWindow()), n');
  }

  lemma FillFlushOut(c: Connection, n: nat, s: Sender) returns (n': nat)
    requires Outgoing(c, n) && Placing(s, n) && Advances(c.sender, n, s, n)
    ensures Moves(c, n, c.(sender := s.FillWindow()).FlushBuffer(), n')
  {
    n' := FillOut(c, n, s);
    var d := c.(sender := s.FillWindow());
    FlushOut(d, n');
    MovesOn(c, n, d, n', d.FlushBuffer(), n');
  }

  lemma WriteOut(c: Connection, n: nat, data: seq<byte>) returns (n': nat)
    requires Outgoing(c, n)
    ensures Moves(c, n, c.Write(data), n')
  {
    n' := n;
    if c.Active() {
      var s := c.sender.(stream := c.sender.stream.Write(data));
      SamePlaces(c.sender, n, s);
      n' := FillFlushOut(c, n, s);
    }
  }

  lemma EndInputOut(c: Connection, n: nat) returns (n': nat)
    requires Outgoing(c, n)
    ensures Moves(c, n, c.EndInputStream(), n')
  {
    n' := n;
    if c.Active() {
      var s := c.sender.(stream := c.sender.stream.(ended := true));
      SamePlaces(c.sender, n, s);
      n' := FillFlushOut(c, n, s);
    }
  }

  lemma ConnectOut(c: Connection, n: nat) returns (n': nat)
    requires Outgoing(c, n)
    ensures Moves(c, n, c.Connect(), n')
  {
    n' := FillOut(c, n, c.sender);
    var d := c.(sender := c.sender.FillWindow());
    if d.sender.segmentsOut != [] {
      FrontOut(d, n', d.sender.segmentsOut[0], c.Connect());
      MovesOn(c, n, d, n', c.Connect(), n');
    }
  }

  lemma ErrorsOut(c: Connection, n: nat)
    requires Outgoing(c, n)
    ensures Moves(c, n, c.SetErrors(), n)
  {
    SamePlaces(c.sender, n, c.SetErrors().sender);
    SenderOut(c, n, c.SetErrors(), n);
  }

  lemma EmptyOut(c: Connection, n: nat)
    requires Outgoing(c, n)
    ensures Moves(c, n, c.(sender := c.sender.SendEmptySegment()), n)
  {
    EmptyPlaces(c.sender, n);
    SenderOut(c, n, c.(sender := c.sender.SendEmptySegment()), n);
  }

  lemma ShutdownOut(c: Connection, n: nat)
    requires Outgoing(c, n)
    ensures Moves(c, n, c.UncleanShutdown(), n)
  {
    var d := c.SetErrors();
    ErrorsOut(c, n);
    EmptyOut(d, n);
    var e := if d.sender.segmentsOut == [] then d.(sender := d.sender.SendEmptySegment()) else d;
    var front := e.sender.segmentsOut[0];
    var h := if c.receiver.Ackno().Some? then front.header.(ackno := c.receiver.Ackno().value) else front.header;
    MovesOn(c, n, d, n, e, n);
    FrontOut(e, n, front.(header := h.(rst := true)), c.UncleanShutdown());
    MovesOn(c, n, e, n, c.UncleanShutdown(), n);
  }

  lemma TickOut(c: Connection, n: nat, ms: nat)
    requires Outgoing(c, n)
    ensures Moves(c, n, c.Tick(ms), n)
  {
    if c.Active() {
      var d := c.Elapse(ms);
      TickPlaces(c.sender, n, ms);
      SenderOut(c, n, d, n);
      ShutdownOut(d, n);
      var e := d.CheckRetransmissions();
      FlushOut(e, n);
      MovesOn(c, n, d, n, e, n);
      MovesOn(c, n, e, n, e.FlushBuffer(), n);
    }
  }

  lemma AbsorbOut(c: Connection, n: nat, seg: TcpSegment) returns (n': nat)
    requires Outgoing(c, n)
    ensures Moves(c, n, c.Absorb(seg), n')
  {
    n' := n;
    if seg.header.ack { n' := AckPlaces(c.sender, n, seg.header.ackno, seg.header.win); }
    SenderOut(c, n, c.Absorb(seg), n');
  }

  lemma SendReplyOut(d: Connection, n: nat)
    requires Outgoing(d, n)
    ensures Moves(d, n, d.SendReply(), n)
  {
    if d.sender.segmentsOut != [] {
      var front := d.sender.segmentsOut[0];
      FrontOut(d, n, front.(header := d.ReplyHeader(front.header)), d.SendReply());
    }
  }

  lemma AnswerOut(d: Connection, n: nat, seg: TcpSegment) returns (n': nat)
    requires Outgoing(d, n)
    ensures Moves(d, n, d.Answer(seg), n')
  {
    n' := n;
    if seg.Length() == 0 {
      FlushOut(d, n);
    } else if seg.header.syn && !seg.header.ack && !d.initiator {
      n' := FillOut(d, n, d.sender);
      var e := d.(sender := d.sender.FillWindow());
      SendReplyOut(e, n');
      MovesOn(d, n, e, n', e.SendReply(), n');
    } else {
      EmptyOut(d, n);
      var e := d.(sender := d.sender.SendEmptySegment());
      SendReplyOut(e, n);
      MovesOn(d, n, e, n, e.SendReply(), n);
    }
  }

  /** The clock and the linger flag play no part. */
  lemma ClockOut(c: Connection, n: nat, c': Connection)
    requires Outgoing(c, n) && c' == c.(sinceLast := c'.sinceLast, linger := c'.linger)
    ensures Moves(c, n, c', n)
  {
  }

  lemma ReceiveOut(c: Connection, n: nat, seg: TcpSegment) returns (n': nat)
    requires Outgoing(c, n)
    ensures Moves(c, n, c.SegmentReceived(seg), n')
  {
    n' := n;
    if c.Active() {
      var b := c.(sinceLast := 0);
      if seg.header.rst {
        ErrorsOut(b, n);
      } else {
        var d := b.Absorb(seg);
        var m := AbsorbOut(b, n, seg);
        n' := AnswerOut(d, m, seg);
        MovesOn(b, n, d, m, d.Answer(seg), n');
        ClockOut(d.Answer(seg), n', d.Answer(seg).PassiveClose());
      }
    }
  }

  lemma DoOut(c: Connection, n: nat, act: Act) returns (n': nat)
    requires Outgoing(c, n)
    ensures Moves(c, n, Do(c, act), n')
  {
    match act {
      case Write(data) => n' := WriteOut(c, n, data);
      case EndInput => n' := EndInputOut(c, n);
      case Connect => n' := ConnectOut(c, n);
      case Tick(ms) =>
        TickOut(c, n, ms);
        n' := n;
      case Receive(seg) => n' := ReceiveOut(c, n, seg);
      case Read(_) => n' := n;
    }
  }

  // Both directions

  lemma ErrorsGot(r: Receiver, r': Receiver, s: Sender, n: nat)
    requires Got(r, s, n) && OnlyErrors(r, r')
    ensures Got(r', s, n)
  {
  }

  lemma DoGot(x: Connection, y: Connection, n: nat, act: Act)
    requires x.Valid() && Outgoing(y, n) && Got(x.receiver, y.sender, n) && y.sender.nextSeqno < TWO31
    requires act.Receive? ==> act.seg in y.segmentsOut
    ensures Got(Do(x, act).receiver, y.sender, n)
  {
    var r, r' := x.receiver, Do(x, act).receiver;
    match act {
      case Receive(seg) =>
        ReceiveReceiver(x, seg);
        if OnlyErrors(r, r') { ErrorsGot(r, r', y.sender, n); } else { ReceiveGot(r, y.sender, n, seg); }
      case Read(_) =>
      case _ =>
        LocalReceiver(x, act);
        ErrorsGot(r, r', y.sender, n);
    }
  }

  /** Direction x to y. */
  ghost predicate Direction(x: Connection, y: Connection, n: nat)
  {
    Outgoing(x, n) && Got(y.receiver, x.sender, n)
  }

  lemma DoDirections(x: Connection, y: Connection, n: nat, m: nat, act: Act) returns (n': nat)
    requires Direction(x, y, n) && Direction(y, x, m) && y.sender.nextSeqno < TWO31
    requires act.Receive? ==> act.seg in y.segmentsOut
    ensures Direction(Do(x, act), y, n') && Direction(y, Do(x, act), m)
  {
    n' := DoOut(x, n, act);
    GotStill(y.receiver, x.sender, n, Do(x, act).sender, n');
    DoGot(x, y, m, act);
  }

  /** The only thing asked of a run: a segment that is delivered has been sent. */
  ghost predicate Possible(p: Pair, steps: seq<Step>)
    requires p.Valid()
  {
    steps == [] ||
    var q, step := Run(p, steps[..|steps| - 1]), steps[|steps| - 1];
    && Possible(p, steps[..|steps| - 1])
    && (step.act.Receive? ==> step.act.seg in (if step.byA then q.b else q.a).segmentsOut)
  }

  lemma {:induction false} RunDirections(p: Pair, steps: seq<Step>) returns (n: nat, m: nat)
    requires Direction(p.a, p.b, 0) && Direction(p.b, p.a, 0) && Possible(p, steps)
    requires Run(p, steps).a.sender.nextSeqno < TWO31 && Run(p, steps).b.sender.nextSeqno < TWO31
    ensures Direction(Run(p, steps).a, Run(p, steps).b, n) && Direction(Run(p, steps).b, Run(p, steps).a, m)
  {
    n, m := 0, 0;
    if steps != [] {
      var before, step := steps[..|steps| - 1], steps[|steps| - 1];
      var q := Run(p, before);
      DoMonotone(if step.byA then q.a else q.b, step.act);
      n, m := RunDirections(p, before);
      if step.byA { n := DoDirections(q.a, q.b, n, m, step.act); } else { m := DoDirections(q.b, q.a, m, n, step.act); }
    }
  }

  /** Full-duplex prefix safety: whatever the channel does to either direction, whichever endpoint times out, resets or
      closes, and whenever the applications write, the bytes each application can read are a prefix of those the
      other has written. */
  lemma DuplexPrefixSafety(p: Pair, rtA: u16, recvA: nat, sendA: nat, isnA: u32,
                           rtB: u16, recvB: nat, sendB: nat, isnB: u32, steps: seq<Step>)
    requires p == NewPair(rtA, recvA, sendA, isnA, rtB, recvB, sendB, isnB) && Possible(p, steps)
    requires Run(p, steps).a.sender.nextSeqno < TWO31 && Run(p, steps).b.sender.nextSeqno < TWO31
    ensures var q := Run(p, steps);
            && q.b.receiver.asm.out.history <= q.a.sender.stream.history
            && q.a.receiver.asm.out.history <= q.b.sender.stream.history
  {
    var n, m := RunDirections(p, steps);
  }
}
