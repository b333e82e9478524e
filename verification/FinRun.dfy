/** Why the FIN needs its condition: a run in which a bare FIN overtakes the only byte of the stream, which then never
    reaches the reader. */
module FinRun {
  import opened Machine
  import opened WrappingIntegers
  import opened Segments
  import opened ByteStreams
  import opened TcpSender
  import opened TcpReceiver
  import opened TwoParty
  import opened Handshakes

  function Fin(isn: u32): TcpSegment { TcpSegment(DEFAULT_HEADER.(fin := true, seqno := Wrap(2, isn)), []) }

  /** The sender after its FIN, which went out alone. */
  function Finished(u: Setup, isn: u32, x: byte, queue: seq<TcpSegment>): Sender
    requires u.cap > 1
  {
    Sent(u, isn, x, queue + [Fin(isn)]).(
      stream := Stream(u.cap, [x], 1, true, false), nextSeqno := 3, bytesInFlight := 2, recvWdnSz := u.cap - 2,
      finSent := true, outstanding := [Outstanding(2, Data(isn, x)), Outstanding(3, Fin(isn))])
  }

  lemma SendsFin(u: Setup, isn: u32, x: byte, queue: seq<TcpSegment>)
    requires u.cap > 1
    ensures var s := Sent(u, isn, x, queue);
            s.(stream := s.stream.(ended := true)).FillWindow() == Finished(u, isn, x, queue)
  {
    var s := Sent(u, isn, x, queue);
    var t := s.(stream := s.stream.(ended := true));
    assert t.FillLoop(EMPTY_SEGMENT) == (t, EMPTY_SEGMENT);
    assert [Outstanding(2, Data(isn, x))][1..] == [];
    assert Insert([], Outstanding(3, Fin(isn))) == [Outstanding(3, Fin(isn))];
    assert Insert(t.outstanding, Outstanding(3, Fin(isn))) == [Outstanding(2, Data(isn, x)), Outstanding(3, Fin(isn))];
  }

  lemma FinEnds(u: Setup, isn: u32)
    ensures var r := Synced(u, isn).SegmentReceived(Fin(isn));
            r.asm.out.ended && r.asm.out.history == [] && !KeepsFin(Synced(u, isn), Fin(isn))
  {
    Unwraps(2, isn, 0);
  }

  function At(s: Sender, r: Receiver, acks: set<AckMessage>): World { World(s, r, acks, true) }

  function Start(u: Setup): (w: World)
    ensures w.Valid()
  {
    Init(u.cap, u.cap, u.rt, u.isnA)
  }

  function Ack(u: Setup): AckMessage { AckMessage(Wrap(1, u.isnA), u.cap) }

  /** The SYN arrives and its acknowledgment is on the way. */
  function Opened(u: Setup): seq<Step>
  {
    [] + [Fill] + [DeliverSegment(Syn(u.isnA))] + [EmitAck]
  }

  lemma AfterOpened(u: Setup)
    ensures Legal(Start(u), Opened(u))
    ensures Run(Start(u), Opened(u)) == At(Opening(u, u.isnA, [], [Syn(u.isnA)]), Synced(u, u.isnA), {Ack(u)})
  {
    var w, syn := Start(u), Syn(u.isnA);
    var s := Opening(u, u.isnA, [], [syn]);
    SendsSyn(u, u.isnA);
    TakesSyn(u, u.isnA, syn);
    RunSnoc(w, [], w, Fill, At(s, NewReceiver(u.cap), {}));
    RunSnoc(w, [] + [Fill], At(s, NewReceiver(u.cap), {}), DeliverSegment(syn), At(s, Synced(u, u.isnA), {}));
    RunSnoc(w, [] + [Fill] + [DeliverSegment(syn)], At(s, Synced(u, u.isnA), {}), EmitAck,
            At(s, Synced(u, u.isnA), {Ack(u)}));
  }

  /** A byte is written and sent, the stream is closed and the FIN follows alone. */
  function Closed(u: Setup): seq<Step>
  {
    Opened(u) + [Write([u.x])] + [DeliverAck(Ack(u))] + [Close] + [Fill]
  }

  lemma AckOpens(u: Setup)
    requires u.cap > 1
    ensures Opening(u, u.isnA, [u.x], [Syn(u.isnA)]).AckReceived(Wrap(1, u.isnA), u.cap) ==
            Sent(u, u.isnA, u.x, [Syn(u.isnA), Data(u.isnA, u.x)])
  {
    Unwraps(1, u.isnA, 0);
    Opens(u, u.isnA, [u.x], [Syn(u.isnA)]);
    SendsByte(u, u.isnA, u.x, [Syn(u.isnA)]);
  }

  lemma AfterClosed(u: Setup)
    requires u.cap > 1
    ensures Legal(Start(u), Closed(u))
    ensures Run(Start(u), Closed(u)) ==
            At(Finished(u, u.isnA, u.x, [Syn(u.isnA), Data(u.isnA, u.x)]), Synced(u, u.isnA), {Ack(u)})
  {
    var w, r, acks, queue := Start(u), Synced(u, u.isnA), {Ack(u)}, [Syn(u.isnA), Data(u.isnA, u.x)];
    var s3, s4 := Opening(u, u.isnA, [], [Syn(u.isnA)]), Opening(u, u.isnA, [u.x], [Syn(u.isnA)]);
    var s5 := Sent(u, u.isnA, u.x, queue);
    var s6 := s5.(stream := s5.stream.(ended := true));
    AfterOpened(u);
    AckOpens(u);
    SendsFin(u, u.isnA, u.x, queue);
    var t3 := Opened(u);
    var t4 := t3 + [Write([u.x])];
    var t5 := t4 + [DeliverAck(Ack(u))];
    RunSnoc(w, t3, At(s3, r, acks), Write([u.x]), At(s4, r, acks));
    RunSnoc(w, t4, At(s4, r, acks), DeliverAck(Ack(u)), At(s5, r, acks));
    RunSnoc(w, t5, At(s5, r, acks), Close, At(s6, r, acks));
    RunSnoc(w, t5 + [Close], At(s6, r, acks), Fill, At(Finished(u, u.isnA, u.x, queue), r, acks));
  }

  /** The FIN arrives before the byte: the output has ended and the byte is not in it. */
  lemma FinOvertakesByte(u: Setup)
    requires u.cap > 1
    ensures var steps := Closed(u) + [DeliverSegment(Fin(u.isnA))];
            && Legal(Start(u), steps)
            && var w := Run(Start(u), steps);
               w.receiver.asm.out.ended && w.receiver.asm.out.history == [] && w.sender.stream.history == [u.x]
  {
    var queue := [Syn(u.isnA), Data(u.isnA, u.x)];
    var v := At(Finished(u, u.isnA, u.x, queue), Synced(u, u.isnA), {Ack(u)});
    AfterClosed(u);
    FinEnds(u, u.isnA);
    assert v.sender.segmentsOut[2] == Fin(u.isnA);
    RunSnoc(Start(u), Closed(u), v, DeliverSegment(Fin(u.isnA)), Next(v, DeliverSegment(Fin(u.isnA))));
  }
}
