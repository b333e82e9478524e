/** Why the end of the stream needs its condition: a run in which a connection that is stalled ends its stream, is over
    without an error, and never sends its FIN. */
module LostFin {
  import opened Machine
  import opened WrappingIntegers
  import opened Segments
  import opened ByteStreams
  import opened Assembly
  import opened TcpSender
  import opened TcpReceiver
  import opened TcpConnection
  import opened SenderInvariant
  import opened SenderEdges
  import opened ConnectionInvariant
  import opened ConnectionRuns
  import opened Duplex
  import opened DuplexAcks
  import opened Handshakes
  import opened LateConnect
  import opened CleanClose

  /** The FIN of an empty stream, and the FIN of B with what it acknowledges. */
  function Fin(isn: u32): TcpSegment { TcpSegment(DEFAULT_HEADER.(fin := true, seqno := Wrap(1, isn)), []) }

  function FinAck(u: Setup): TcpSegment
    requires u.cap > 0
  {
    Acked(Fin(u.isnB), Wrap(2, u.isnA), u.cap - 1)
  }

  /** A sender whose only byte is acknowledged, with a window of zero. */
  function Heard(u: Setup, isn: u32, x: byte, queue: seq<TcpSegment>): Sender
  {
    Sender(isn, u.rt, Stream(u.cap, [x], 1, false, false), 2, [], 0, queue, true, false,
           0, 2, 1, 2, Timer(false, u.rt, 0, 0))
  }

  /** A receiver that has the SYN and the FIN. */
  function Ended(u: Setup, isn: u32): Receiver
  {
    Receiver(Assembly(Stream(u.cap, [], 0, true, false), map[], true), Wrap(2, isn), isn, 2, 1, true, true)
  }

  // Steps

  lemma SendsFin(u: Setup)
    requires u.cap > 0
    ensures var s := Open(u, u.isnB, [], []);
            var t := s.(stream := s.stream.(ended := true)).FillWindow();
            t.segmentsOut == [Fin(u.isnB)] && t.stream.Valid()
  {
    var s := Open(u, u.isnB, [], []);
    var t := s.(stream := s.stream.(ended := true));
    assert t.FillLoop(EMPTY_SEGMENT) == (t, EMPTY_SEGMENT);
  }

  /** What matters of B once it has ended its stream: what it has sent, and that it still waits. */
  ghost predicate Closing(u: Setup, b: Connection)
    requires u.cap > 0
  {
    FinAck(u) in b.segmentsOut && SynAck(u) in b.segmentsOut && !b.receiver.asm.out.ended
  }

  /** B ends its stream. */
  lemma StepB(u: Setup)
    requires u.cap > 0
    ensures Closing(u, B5(u).EndInputStream())
  {
    SendsFin(u);
    var b := B5(u).EndInputStream();
    assert B5(u).Active();
    assert b.segmentsOut[0] == SynAck(u) && b.segmentsOut[2] == FinAck(u);
  }

  lemma TakesFin(u: Setup, seg: TcpSegment)
    requires u.cap > 0 && seg == FinAck(u)
    ensures Synced(u, u.isnB).SegmentReceived(seg) == Ended(u, u.isnB)
  {
    Unwraps(1, u.isnB, 0);
  }

  lemma Hears(u: Setup, queue: seq<TcpSegment>)
    requires u.cap == 1
    ensures Sent(u, u.isnA, u.x, queue).AckReceived(Wrap(2, u.isnA), 0) == Heard(u, u.isnA, u.x, queue)
  {
    var s := Sent(u, u.isnA, u.x, queue);
    Unwraps(2, u.isnA, 1);
    assert LengthOf(s.outstanding, 1) == 1;
    assert s.outstanding[1..] == [];
    assert s.Noted(2, 0).Forget(2) == s.Noted(2, 0).(outstanding := [], bytesInFlight := 0);
    FillsNothing(Heard(u, u.isnA, u.x, queue));
  }

  function A5(u: Setup): Connection
    requires u.cap > 0
  {
    Connection(u.rt, Heard(u, u.isnA, u.x, [Empty(Wrap(2, u.isnA))]), Ended(u, u.isnB),
               [Syn(u.isnA), DataAck(u), Acked(Empty(Wrap(2, u.isnA)), Wrap(2, u.isnB), u.cap)], false, 0, true)
  }

  /** A hears of the FIN and that its byte has arrived. */
  lemma StepA(u: Setup)
    requires u.cap == 1
    ensures A4(u).SegmentReceived(FinAck(u)) == A5(u)
  {
    var last := Empty(Wrap(2, u.isnA));
    TakesFin(u, FinAck(u));
    Hears(u, [last]);
    var d := A4(u).Absorb(FinAck(u));
    assert d == A4(u).(sender := Heard(u, u.isnA, u.x, [last]), receiver := Ended(u, u.isnB));
    assert d.sender.SendEmptySegment() == Heard(u, u.isnA, u.x, [last, last]);
    assert [last, last][1..] == [last];
  }

  lemma Stalls(u: Setup, queue: seq<TcpSegment>)
    requires u.cap == 1
    ensures Heard(u, u.isnA, u.x, queue).AckReceived(Wrap(1, u.isnA), 1) ==
            Heard(u, u.isnA, u.x, queue).(absAckno := 1, wdnSz := 1, recvWdnSz := 0)
  {
    Unwraps(1, u.isnA, 2);
    FillsNothing(Heard(u, u.isnA, u.x, queue).(absAckno := 1, wdnSz := 1, recvWdnSz := 0));
  }

  /** The first answer of B arrives once more, and A is stalled. */
  lemma StepDuplicate(u: Setup)
    requires u.cap == 1
    ensures var a := A5(u).SegmentReceived(SynAck(u));
            Stalled(a) && !a.linger && a.receiver == Ended(u, u.isnB) && !Failed(a)
  {
    var last := Empty(Wrap(2, u.isnA));
    Stalls(u, [last]);
    var d := A5(u).Absorb(SynAck(u));
    assert d == A5(u).(sender := A5(u).sender.(absAckno := 1, wdnSz := 1, recvWdnSz := 0));
  }

  // The run

  lemma DisciplinedSnoc(p: Pair, steps: seq<Step>, step: Step)
    requires p.Valid() && Disciplined(p, steps)
    requires var x := if step.byA then Run(p, steps).a else Run(p, steps).b;
             Orderly(x, step.act) && KeepsFins(x, step.act)
    ensures Disciplined(p, steps + [step])
  {
    assert (steps + [step])[..|steps|] == steps;
  }

  /** An act that neither connects nor brings a FIN is disciplined. */
  lemma EasySnoc(p: Pair, steps: seq<Step>, step: Step)
    requires p.Valid() && Disciplined(p, steps) && !step.act.Connect?
    requires step.act.Receive? ==> !step.act.seg.header.fin
    ensures Disciplined(p, steps + [step])
  {
    DisciplinedSnoc(p, steps, step);
  }

  /** A handshake in which A sends a byte, and B gets it. */
  function Exchanged(u: Setup): seq<Step> { Handshake(u) + [Step(false, Receive(DataAck(u)))] }

  lemma AfterExchange(u: Setup)
    requires u.cap > 0
    ensures Leads(u, Exchanged(u), Pair(A4(u), B5(u))) && Disciplined(Start(u), Exchanged(u))
  {
    AfterHandshake(u);
    ThenData(u, Handshake(u));
    var p := Start(u);
    DisciplinedSnoc(p, [], Step(true, Connect));
    EasySnoc(p, [] + [Step(true, Connect)], Step(true, Write([u.x])));
    EasySnoc(p, Opening2(u), Step(false, Receive(Syn(u.isnA))));
    EasySnoc(p, Opening2(u) + [Step(false, Receive(Syn(u.isnA)))], Step(true, Receive(SynAck(u))));
    EasySnoc(p, Handshake(u), Step(false, Receive(DataAck(u))));
  }

  /** B ends its stream, A hears of it, and then the first answer of B arrives once more. */
  function Duplicated(u: Setup): seq<Step>
    requires u.cap > 0
  {
    Exchanged(u) + [Step(false, EndInput)] + [Step(true, Receive(FinAck(u)))] + [Step(true, Receive(SynAck(u)))]
  }

  ghost predicate Reaches(u: Setup, steps: seq<Step>, a: Connection, b: Connection)
  {
    Leads(u, steps, Pair(a, b)) && Disciplined(Start(u), steps) && a.Valid()
  }

  /** The next step is A's. */
  lemma ReachesOn(u: Setup, steps: seq<Step>, a: Connection, b: Connection, act: Act, a': Connection)
    requires Reaches(u, steps, a, b) && Enabled(a, b, act) && Orderly(a, act) && KeepsFins(a, act) && a' == Do(a, act)
    ensures Reaches(u, steps + [Step(true, act)], a', b)
  {
    RunA(Start(u), steps, Pair(a, b), act, a');
    DisciplinedSnoc(Start(u), steps, Step(true, act));
  }

  lemma KeepsBareFin(u: Setup)
    requires u.cap > 0
    ensures KeepsFins(A4(u), Receive(FinAck(u)))
  {
    Unwraps(1, u.isnB, 0);
  }

  lemma AfterEnd(u: Setup) returns (b: Connection)
    requires u.cap > 0
    ensures Reaches(u, Exchanged(u) + [Step(false, EndInput)], A4(u), b) && Closing(u, b)
  {
    b := B5(u).EndInputStream();
    AfterExchange(u);
    StepB(u);
    RunB(Start(u), Exchanged(u), Pair(A4(u), B5(u)), EndInput, b);
    EasySnoc(Start(u), Exchanged(u), Step(false, EndInput));
  }

  /** A receives a segment that B has sent. */
  lemma ThenTakes(u: Setup, steps: seq<Step>, a: Connection, b: Connection, seg: TcpSegment, a': Connection)
    requires Reaches(u, steps, a, b) && seg in b.segmentsOut && KeepsFins(a, Receive(seg))
    requires a' == a.SegmentReceived(seg)
    ensures Reaches(u, steps + [Step(true, Receive(seg))], a', b)
  {
    ReachesOn(u, steps, a, b, Receive(seg), a');
  }

  lemma AfterFin(u: Setup) returns (b: Connection)
    requires u.cap == 1
    ensures Reaches(u, Exchanged(u) + [Step(false, EndInput)] + [Step(true, Receive(FinAck(u)))], A5(u), b)
    ensures Closing(u, b)
  {
    b := AfterEnd(u);
    StepA(u);
    KeepsBareFin(u);
    ThenTakes(u, Exchanged(u) + [Step(false, EndInput)], A4(u), b, FinAck(u), A5(u));
  }

  lemma AfterDuplicate(u: Setup, a: Connection) returns (b: Connection)
    requires u.cap == 1 && a == A5(u).SegmentReceived(SynAck(u))
    ensures Reaches(u, Duplicated(u), a, b) && Closing(u, b)
  {
    b := AfterFin(u);
    ThenTakes(u, Exchanged(u) + [Step(false, EndInput)] + [Step(true, Receive(FinAck(u)))], A5(u), b, SynAck(u), a);
  }

  /** Wherever a stalled connection that does not linger ends its stream. */
  lemma StalledLoses(u: Setup, steps: seq<Step>, a: Connection, b: Connection)
    requires Reaches(u, steps, a, b) && Stalled(a) && !a.linger && a.receiver.asm.out.Eof()
    ensures Reaches(u, steps + [Step(true, EndInput)], a.EndInputStream(), b)
    ensures Lost(a.EndInputStream()) && !Failed(a.EndInputStream())
  {
    NewInv(u.cap, u.rt, u.isnA);
    NewInv(u.cap, u.rt, u.isnB);
    RunEndpoints(Start(u), steps);
    FinLostIff(a, b.sender.syn);
    FillTakes(a.sender.(stream := a.sender.stream.(ended := true)));
    ReachesOn(u, steps, a, b, EndInput, a.EndInputStream());
  }

  /** A stalled connection ends its stream: it is over without an error, the FIN will never be sent, and the other's
      output has not ended. */
  lemma FinNeverSent(u: Setup)
    requires u.cap == 1
    ensures var steps := Duplicated(u) + [Step(true, EndInput)];
            && Legal(Start(u), steps) && Disciplined(Start(u), steps)
            && var q := Run(Start(u), steps);
               Lost(q.a) && !Failed(q.a) && !q.b.receiver.asm.out.ended
  {
    var a := A5(u).SegmentReceived(SynAck(u));
    var b := AfterDuplicate(u, a);
    StepDuplicate(u);
    StalledLoses(u, Duplicated(u), a, b);
  }
}
