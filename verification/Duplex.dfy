/** Two complete connections joined by a channel that may drop, duplicate and reorder segments in both
    directions. */
module Duplex {
  import opened Machine
  import opened Segments
  import opened SenderInvariant
  import opened SenderSteps
  import opened SenderProgress
  import opened TcpConnection
  import opened ConnectionInvariant
  import opened ConnectionRuns
  import opened TwoPartySafety

  /** What is delivered is something the peer has sent. */
  predicate Enabled(c: Connection, peer: Connection, act: Act)
    requires c.Valid()
  {
    MayDo(c, act) && (act.Receive? ==> act.seg in peer.segmentsOut)
  }

  datatype Pair = Pair(a: Connection, b: Connection)
  {
    ghost predicate Valid() { a.Valid() && b.Valid() }
  }

  /** A step of one of the two endpoints. */
  datatype Step = Step(byA: bool, act: Act)

  function Next(p: Pair, step: Step): (q: Pair)
    requires p.Valid()
    ensures q.Valid()
  {
    if step.byA then p.(a := Do(p.a, step.act)) else p.(b := Do(p.b, step.act))
  }

  function Run(p: Pair, steps: seq<Step>): (q: Pair)
    requires p.Valid()
    ensures q.Valid()
  {
    if steps == [] then p else Next(Run(p, steps[..|steps| - 1]), steps[|steps| - 1])
  }

  ghost predicate Legal(p: Pair, steps: seq<Step>)
    requires p.Valid()
  {
    steps == [] ||
    var q, step := Run(p, steps[..|steps| - 1]), steps[|steps| - 1];
    && Legal(p, steps[..|steps| - 1])
    && (if step.byA then Enabled(q.a, q.b, step.act) else Enabled(q.b, q.a, step.act))
  }

  /** Each connection keeps its own invariant. */
  ghost predicate Endpoints(p: Pair)
  {
    ConnInv(p.a, p.b.sender.syn) && ConnInv(p.b, p.a.sender.syn)
  }

  /** A segment of the peer that takes up sequence space shows that the peer's SYN is out. */
  lemma DeliveredIsAcceptable(x: Connection, y: Connection, seg: TcpSegment)
    requires ConnInv(x, y.sender.syn) && ConnInv(y, x.sender.syn) && seg in y.segmentsOut
    ensures Acceptable(x, seg, y.sender.syn) && Sendable(seg, y.sender)
  {
  }

  lemma DoKeeps(x: Connection, y: Connection, act: Act)
    requires ConnInv(x, y.sender.syn) && ConnInv(y, x.sender.syn) && Enabled(x, y, act)
    ensures ConnInv(Do(x, act), y.sender.syn) && Progress(x.sender, Do(x, act).sender)
  {
    if act.Receive? {
      DeliveredIsAcceptable(x, y, act.seg);
      ReceiveKeeps(x, act.seg, y.sender.syn);
    } else {
      LocalKeeps(x, act, y.sender.syn);
    }
  }

  /** The receiver changes at most by the error flag. */
  ghost predicate OnlyErrors(r: Receiver, r': Receiver)
  {
    r' == r || r' == r.(asm := r.asm.(out := r.asm.out.(error := true)))
  }

  lemma LocalReceiver(x: Connection, act: Act)
    requires x.Valid() && !act.Receive? && !act.Read?
    ensures OnlyErrors(x.receiver, Do(x, act).receiver)
  {
  }

  lemma ReceiveReceiver(x: Connection, seg: TcpSegment)
    requires x.Valid()
    ensures var r, r' := x.receiver, x.SegmentReceived(seg).receiver;
            OnlyErrors(r, r') || r' == r.SegmentReceived(seg)
  {
  }

  lemma AbsorbMonotone(x: Connection, seg: TcpSegment)
    requires x.Valid()
    ensures x.sender.nextSeqno <= x.Absorb(seg).sender.nextSeqno
  {
    AckMonotone(x.sender, seg.header.ackno, seg.header.win);
  }

  lemma ReplyMonotone(x: Connection, seg: TcpSegment)
    requires x.Valid()
    ensures x.sender.nextSeqno <= x.Reply(seg).sender.nextSeqno
  {
    FillMonotone(x.sender);
  }

  lemma ReceiveMonotone(x: Connection, seg: TcpSegment)
    requires x.Valid()
    ensures x.sender.nextSeqno <= x.SegmentReceived(seg).sender.nextSeqno
  {
    var b := x.(sinceLast := 0);
    AbsorbMonotone(b, seg);
    ReplyMonotone(b.Absorb(seg), seg);
  }

  lemma WriteMonotone(x: Connection, data: seq<byte>)
    requires x.Valid()
    ensures x.sender.nextSeqno <= x.Write(data).sender.nextSeqno
  {
    FillMonotone(x.sender.(stream := x.sender.stream.Write(data)));
  }

  lemma EndInputMonotone(x: Connection)
    requires x.Valid()
    ensures x.sender.nextSeqno <= x.EndInputStream().sender.nextSeqno
  {
    FillMonotone(x.sender.(stream := x.sender.stream.(ended := true)));
  }

  lemma ConnectMonotone(x: Connection)
    requires x.Valid()
    ensures x.sender.nextSeqno <= x.Connect().sender.nextSeqno
  {
    FillMonotone(x.sender);
  }

  lemma TickMonotone(x: Connection, ms: nat)
    requires x.Valid()
    ensures x.sender.nextSeqno <= x.Tick(ms).sender.nextSeqno
  {
  }

  lemma DoMonotone(x: Connection, act: Act)
    requires x.Valid()
    ensures x.sender.nextSeqno <= Do(x, act).sender.nextSeqno
  {
    match act
    case Write(data) => WriteMonotone(x, data);
    case EndInput => EndInputMonotone(x);
    case Connect => ConnectMonotone(x);
    case Tick(ms) => TickMonotone(x, ms);
    case Receive(seg) => ReceiveMonotone(x, seg);
    case Read(n) =>
  }

  /** Two fresh endpoints. */
  function NewPair(rtA: u16, recvA: nat, sendA: nat, isnA: u32, rtB: u16, recvB: nat, sendB: nat, isnB: u32): (p: Pair)
    ensures p.Valid()
  {
    Pair(NewConnection(rtA, recvA, sendA, isnA), NewConnection(rtB, recvB, sendB, isnB))
  }

  /** Timer discipline of a connection: on exactly when something is outstanding, with a timeout of exactly the
      initial one times two to the number of retransmissions, which is at most nine: the 32-bit field never
      wraps. Past eight both streams are in error. */
  ghost predicate TimerDisciplined(c: Connection)
  {
    var s := c.sender;
    && (s.timer.on <==> s.outstanding != [])
    && (s.timer.on ==> s.timer.rto == s.initialRto * Pow2(s.timer.retransmissions))
    && s.timer.retransmissions <= MAX_RETX_ATTEMPTS + 1
    && (s.timer.retransmissions > MAX_RETX_ATTEMPTS ==> Failed(c))
  }

  lemma TimeoutHolds(c: Connection, peerSyn: bool)
    requires ConnInv(c, peerSyn)
    ensures TimerDisciplined(c)
  {
    TimeoutIs(c.sender.initialRto, c.sender.timer.retransmissions);
  }

  lemma {:induction false} RunEndpoints(p: Pair, steps: seq<Step>)
    requires Endpoints(p) && Legal(p, steps)
    ensures Endpoints(Run(p, steps))
  {
    if steps != [] {
      var before, step := steps[..|steps| - 1], steps[|steps| - 1];
      var q := Run(p, before);
      RunEndpoints(p, before);
      if step.byA {
        DoKeeps(q.a, q.b, step.act);
        ConnInvGrows(q.b, q.a.sender.syn, Do(q.a, step.act).sender.syn);
      } else {
        DoKeeps(q.b, q.a, step.act);
        ConnInvGrows(q.a, q.b.sender.syn, Do(q.b, step.act).sender.syn);
      }
    }
  }

  /** Timer discipline over every run, however many sequence numbers it uses. */
  lemma DuplexTimers(p: Pair, rtA: u16, recvA: nat, sendA: nat, isnA: u32,
                     rtB: u16, recvB: nat, sendB: nat, isnB: u32, steps: seq<Step>)
    requires p == NewPair(rtA, recvA, sendA, isnA, rtB, recvB, sendB, isnB) && Legal(p, steps)
    ensures TimerDisciplined(Run(p, steps).a) && TimerDisciplined(Run(p, steps).b)
  {
    NewInv(sendA, rtA, isnA);
    NewInv(sendB, rtB, isnB);
    RunEndpoints(p, steps);
    var q := Run(p, steps);
    TimeoutHolds(q.a, q.b.sender.syn);
    TimeoutHolds(q.b, q.a.sender.syn);
  }
}
