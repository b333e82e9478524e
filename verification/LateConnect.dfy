/** Why `connect` must not be called with an empty acknowledgment at the front of the queue: a run in which that
    makes the peer forget a byte that was never received. */
module LateConnect {
  import opened WrappingIntegers
  import opened Segments
  import opened TcpSender
  import opened TcpReceiver
  import opened TcpConnection
  import opened SenderSteps
  import opened ConnectionRuns
  import opened Duplex
  import opened DuplexAcks
  import opened TwoPartySafety
  import opened Handshakes

  // The two endpoints

  function NewA(u: Setup): Connection { NewConnection(u.rt, u.cap, u.cap, u.isnA) }

  function NewB(u: Setup): Connection { NewConnection(u.rt, u.cap, u.cap, u.isnB) }

  function SynAck(u: Setup): TcpSegment { Acked(Syn(u.isnB), Wrap(1, u.isnA), u.cap) }

  function DataAck(u: Setup): TcpSegment { Acked(Data(u.isnA, u.x), Wrap(1, u.isnB), u.cap) }

  function A2(u: Setup): Connection
  {
    Connection(u.rt, Opening(u, u.isnA, [u.x], []), NewReceiver(u.cap), [Syn(u.isnA)], true, 0, true)
  }

  function A4(u: Setup): Connection
    requires u.cap > 0
  {
    Connection(u.rt, Sent(u, u.isnA, u.x, [Empty(Wrap(2, u.isnA))]), Synced(u, u.isnB),
               [Syn(u.isnA), DataAck(u)], true, 0, true)
  }

  function A7(u: Setup): Connection
    requires u.cap > 0
  {
    Connection(u.rt, Sent(u, u.isnA, u.x, []), Synced(u, u.isnB),
               [Syn(u.isnA), DataAck(u), Empty(Wrap(2, u.isnA))], true, 0, true)
  }

  function B3(u: Setup): Connection
  {
    Connection(u.rt, Opening(u, u.isnB, [], []), Synced(u, u.isnA), [SynAck(u)], true, 0, false)
  }

  function B5(u: Setup): Connection
    requires u.cap > 0
  {
    Connection(u.rt, Open(u, u.isnB, [], []), Holding(u, u.isnA, u.x),
               [SynAck(u), Acked(Empty(Wrap(1, u.isnB)), Wrap(2, u.isnA), u.cap - 1)], true, 0, false)
  }

  function B6(u: Setup): Connection
    requires u.cap > 0
  {
    Connection(u.rt, Sent(u, u.isnB, u.y, []), Holding(u, u.isnA, u.x),
               B5(u).segmentsOut + [Acked(Data(u.isnB, u.y), Wrap(2, u.isnA), u.cap - 1)], true, 0, false)
  }

  lemma Step12(u: Setup)
    requires u.cap > 0
    ensures NewA(u).Connect().Write([u.x]) == A2(u)
  {
    SendsSyn(u, u.isnA);
    assert [Syn(u.isnA)][1..] == [];
    assert NewA(u).Connect() == A2(u).(sender := Opening(u, u.isnA, [], []));
  }

  lemma Step3(u: Setup)
    ensures NewB(u).SegmentReceived(Syn(u.isnA)) == B3(u)
  {
    TakesSyn(u, u.isnA, Syn(u.isnA));
    SendsSyn(u, u.isnB);
    var d := NewB(u).Absorb(Syn(u.isnA));
    assert d == NewB(u).(receiver := Synced(u, u.isnA));
    assert [Syn(u.isnB)][1..] == [];
  }

  lemma Step4(u: Setup)
    requires u.cap > 0
    ensures A2(u).SegmentReceived(SynAck(u)) == A4(u)
  {
    TakesSyn(u, u.isnB, SynAck(u));
    Unwraps(1, u.isnA, 0);
    Opens(u, u.isnA, [u.x], []);
    SendsByte(u, u.isnA, u.x, []);
    var d, data, last := A2(u).Absorb(SynAck(u)), Data(u.isnA, u.x), Empty(Wrap(2, u.isnA));
    assert d == A2(u).(sender := Sent(u, u.isnA, u.x, [data]), receiver := Synced(u, u.isnB));
    assert d.sender.SendEmptySegment() == Sent(u, u.isnA, u.x, [data, last]);
    assert [data, last][1..] == [last];
  }

  lemma AbsorbsData(u: Setup)
    requires u.cap > 0
    ensures B3(u).Absorb(DataAck(u)) == B3(u).(sender := Open(u, u.isnB, [], []), receiver := Holding(u, u.isnA, u.x))
  {
    TakesByte(u, u.isnA, u.x, DataAck(u));
    Unwraps(1, u.isnB, 0);
    Opens(u, u.isnB, [], []);
    FillsNothing(Open(u, u.isnB, [], []));
  }

  lemma RepliesToData(u: Setup, d: Connection)
    requires u.cap > 0 && d == B3(u).(sender := Open(u, u.isnB, [], []), receiver := Holding(u, u.isnA, u.x))
    ensures d.Reply(DataAck(u)) == B5(u)
  {
    var last := Empty(Wrap(1, u.isnB));
    assert d.sender.SendEmptySegment() == d.sender.(segmentsOut := [last]);
    assert [last][1..] == [];
  }

  lemma Step5(u: Setup)
    requires u.cap > 0
    ensures B3(u).SegmentReceived(DataAck(u)) == B5(u)
  {
    AbsorbsData(u);
    RepliesToData(u, B3(u).Absorb(DataAck(u)));
  }

  lemma Step6(u: Setup)
    requires u.cap > 0
    ensures B5(u).Write([u.y]) == B6(u)
  {
    SendsByte(u, u.isnB, u.y, []);
    var s := B5(u).sender;
    assert s.(stream := s.stream.Write([u.y])) == Open(u, u.isnB, [u.y], []);
  }

  lemma Step7(u: Setup)
    requires u.cap > 0
    ensures A4(u).Connect() == A7(u)
  {
    FillsNothing(A4(u).sender);
    assert [Empty(Wrap(2, u.isnA))][1..] == [];
  }

  lemma Step8(u: Setup)
    requires u.cap > 0 && u.isnB == 0xffff_fffe
    ensures var b := B6(u).SegmentReceived(Empty(Wrap(2, u.isnA)));
            Una(b.sender) == 2 && b.sender.stream.history == [u.y]
  {
    assert Wrap(2, u.isnB) == 0;
    Unwraps(2, u.isnB, 1);
    var s := B6(u).sender;
    assert LengthOf(s.outstanding, 1) == 1;
    var t := s.Acknowledge(2, 0);
    assert t.bytesInFlight == 0 && t.nextSeqno == 2;
    FillsNothing(t);
  }

  // The run

  lemma RunA(p: Pair, steps: seq<Step>, q: Pair, act: Act, a': Connection)
    requires p.Valid() && Legal(p, steps) && Run(p, steps) == q && Enabled(q.a, q.b, act) && Do(q.a, act) == a'
    ensures Legal(p, steps + [Step(true, act)]) && Run(p, steps + [Step(true, act)]) == Pair(a', q.b)
  {
    assert (steps + [Step(true, act)])[..|steps|] == steps;
  }

  lemma RunB(p: Pair, steps: seq<Step>, q: Pair, act: Act, b': Connection)
    requires p.Valid() && Legal(p, steps) && Run(p, steps) == q && Enabled(q.b, q.a, act) && Do(q.b, act) == b'
    ensures Legal(p, steps + [Step(false, act)]) && Run(p, steps + [Step(false, act)]) == Pair(q.a, b')
  {
    assert (steps + [Step(false, act)])[..|steps|] == steps;
  }

  function Start(u: Setup): (p: Pair)
    ensures p.Valid()
  {
    NewPair(u.rt, u.cap, u.cap, u.isnA, u.rt, u.cap, u.cap, u.isnB)
  }

  /** `steps` is a legal run that leads from the start to `q`. */
  ghost predicate Leads(u: Setup, steps: seq<Step>, q: Pair)
  {
    Legal(Start(u), steps) && Run(Start(u), steps) == q
  }

  /** A connects and writes. */
  function Opening2(u: Setup): seq<Step> { [] + [Step(true, Connect)] + [Step(true, Write([u.x]))] }

  lemma AfterOpening(u: Setup)
    requires u.cap > 0
    ensures Leads(u, Opening2(u), Pair(A2(u), NewB(u)))
  {
    Step12(u);
    RunA(Start(u), [], Pair(NewA(u), NewB(u)), Connect, NewA(u).Connect());
    RunA(Start(u), [] + [Step(true, Connect)], Pair(NewA(u).Connect(), NewB(u)), Write([u.x]), A2(u));
  }

  /** B answers the SYN; A's reply takes the data and leaves the acknowledgment behind. */
  function Handshake(u: Setup): seq<Step>
  {
    Opening2(u) + [Step(false, Receive(Syn(u.isnA)))] + [Step(true, Receive(SynAck(u)))]
  }

  lemma AfterSyn(u: Setup)
    requires u.cap > 0
    ensures Leads(u, Opening2(u) + [Step(false, Receive(Syn(u.isnA)))], Pair(A2(u), B3(u)))
  {
    AfterOpening(u);
    Step3(u);
    assert A2(u).segmentsOut[0] == Syn(u.isnA);
    ThenReceives(u, Opening2(u), A2(u), NewB(u), Syn(u.isnA), B3(u));
  }

  lemma AfterHandshake(u: Setup)
    requires u.cap > 0
    ensures Leads(u, Handshake(u), Pair(A4(u), B3(u)))
  {
    AfterSyn(u);
    Step4(u);
    assert B3(u).segmentsOut[0] == SynAck(u);
    ThenHears(u, Opening2(u) + [Step(false, Receive(Syn(u.isnA)))], A2(u), B3(u), SynAck(u), A4(u));
  }

  lemma ThenHears(u: Setup, steps: seq<Step>, a: Connection, b: Connection, seg: TcpSegment, a': Connection)
    requires Leads(u, steps, Pair(a, b)) && seg in b.segmentsOut && a.Valid() && a.SegmentReceived(seg) == a'
    ensures Leads(u, steps + [Step(true, Receive(seg))], Pair(a', b))
  {
    RunA(Start(u), steps, Pair(a, b), Receive(seg), a');
  }

  /** After an ordinary handshake, whatever the initial sequence numbers, connecting again sends an acknowledgment
      with number zero and window zero, which is not what the receiver has. */
  lemma LateConnectUnsound(u: Setup)
    requires u.cap > 0
    ensures Leads(u, Handshake(u), Pair(A4(u), B3(u)))
    ensures !MayConnect(A4(u)) && !Announces(A4(u), A4(u).Connect())
  {
    AfterHandshake(u);
    Step7(u);
    assert A7(u).segmentsOut[2] == Empty(Wrap(2, u.isnA));
  }

  lemma ThenReceives(u: Setup, steps: seq<Step>, a: Connection, b: Connection, seg: TcpSegment, b': Connection)
    requires Leads(u, steps, Pair(a, b)) && seg in a.segmentsOut && b.Valid() && b.SegmentReceived(seg) == b'
    ensures Leads(u, steps + [Step(false, Receive(seg))], Pair(a, b'))
  {
    RunB(Start(u), steps, Pair(a, b), Receive(seg), b');
  }

  lemma ThenData(u: Setup, steps: seq<Step>)
    requires u.cap > 0 && Leads(u, steps, Pair(A4(u), B3(u)))
    ensures Leads(u, steps + [Step(false, Receive(DataAck(u)))], Pair(A4(u), B5(u)))
  {
    Step5(u);
    assert A4(u).segmentsOut[1] == DataAck(u);
    ThenReceives(u, steps, A4(u), B3(u), DataAck(u), B5(u));
  }

  lemma ThenAnswer(u: Setup, steps: seq<Step>)
    requires u.cap > 0 && Leads(u, steps, Pair(A4(u), B5(u)))
    ensures Leads(u, steps + [Step(false, Write([u.y]))], Pair(A4(u), B6(u)))
  {
    Step6(u);
    RunB(Start(u), steps, Pair(A4(u), B5(u)), Write([u.y]), B6(u));
  }

  lemma ThenConnect(u: Setup, steps: seq<Step>)
    requires u.cap > 0 && Leads(u, steps, Pair(A4(u), B6(u)))
    ensures Leads(u, steps + [Step(true, Connect)], Pair(A7(u), B6(u)))
  {
    Step7(u);
    RunA(Start(u), steps, Pair(A4(u), B6(u)), Connect, A7(u));
  }

  /** The data arrives, B sends a byte that is lost, A connects again and B hears of it. */
  function Aftermath(u: Setup): seq<Step>
  {
    Handshake(u) + [Step(false, Receive(DataAck(u)))] + [Step(false, Write([u.y]))] + [Step(true, Connect)]
    + [Step(false, Receive(Empty(Wrap(2, u.isnA))))]
  }

  lemma ThenForgets(u: Setup, steps: seq<Step>)
    requires u.cap > 0 && u.isnB == 0xffff_fffe && Leads(u, steps, Pair(A7(u), B6(u)))
    ensures var b := B6(u).SegmentReceived(Empty(Wrap(2, u.isnA)));
            && Leads(u, steps + [Step(false, Receive(Empty(Wrap(2, u.isnA))))], Pair(A7(u), b))
            && !AllAcked(b.sender, A7(u).receiver)
  {
    Step8(u);
    assert A7(u).segmentsOut[2] == Empty(Wrap(2, u.isnA));
    ThenReceives(u, steps, A7(u), B6(u), Empty(Wrap(2, u.isnA)), B6(u).SegmentReceived(Empty(Wrap(2, u.isnA))));
  }

  /** Then, with an initial sequence number two below 2^32, B has dropped a byte that A has not got: without the
      condition on `connect`, acknowledgment soundness fails. */
  lemma LateConnectLoses(u: Setup)
    requires u.cap > 0 && u.isnB == 0xffff_fffe
    ensures Legal(Start(u), Aftermath(u))
    ensures var q := Run(Start(u), Aftermath(u)); !AllAcked(q.b.sender, q.a.receiver)
  {
    var s4 := Handshake(u);
    var s5 := s4 + [Step(false, Receive(DataAck(u)))];
    var s6 := s5 + [Step(false, Write([u.y]))];
    AfterHandshake(u);
    ThenData(u, s4);
    ThenAnswer(u, s5);
    ThenConnect(u, s6);
    ThenForgets(u, s6 + [Step(true, Connect)]);
  }
}
