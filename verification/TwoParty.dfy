/** A sender and a receiver joined by a channel that may drop, duplicate and reorder segments and
    acknowledgments: whatever has once been sent may be delivered at any later time, any number of times or
    never. */
module TwoParty {
  import opened Machine
  import opened WrappingIntegers
  import opened Segments
  import opened TcpSender
  import opened TcpReceiver
  import opened SenderSteps
  import opened AssemblyRuns

  datatype AckMessage = AckMessage(ackno: u32, window: u16)

  /** The sender's output queue is the log of every segment sent; `acks` is the log of every acknowledgment.
      `finKept` records whether the first FIN to arrive, if any, came with data or after the byte before it. */
  datatype World = World(sender: Sender, receiver: Receiver, acks: set<AckMessage>, finKept: bool)
  {
    ghost predicate Valid() { sender.stream.Valid() && receiver.Valid() }
  }

  datatype Step =
    | Write(data: seq<byte>) | Close | Fill | Tick(ms: nat) | Empty
    | DeliverSegment(seg: TcpSegment) | Read(n: nat)
    | EmitAck | DeliverAck(a: AckMessage)

  /** The application adds nothing once the FIN is out; only what has been sent is delivered. */
  predicate Enabled(w: World, step: Step)
    requires w.Valid()
  {
    match step
    case Write(data) => MayWrite(w.sender, data)
    case DeliverSegment(seg) => seg in w.sender.segmentsOut
    case EmitAck => w.receiver.syn
    case DeliverAck(a) => a in w.acks
    case _ => true
  }

  /** The stream position after the last byte, as the receiver reads it off a segment with a FIN. */
  function FinPosition(r: Receiver, seg: TcpSegment): int
  {
    Unwrap(seg.header.seqno, r.isn, r.checkpoint) - 1 + |seg.payload|
  }

  /** A bare FIN is no news, or the byte before it is there. */
  predicate KeepsFin(r: Receiver, seg: TcpSegment)
  {
    var end := FinPosition(r, seg);
    !r.syn || r.end || seg.payload != [] || end <= 0 || Has(r.asm, end - 1)
  }

  /** The acknowledgment the connection sends. */
  function CurrentAck(r: Receiver): AckMessage
    requires r.Valid()
  {
    AckMessage(r.ack, ClippedWindow(r))
  }

  function Next(w: World, step: Step): (w': World)
    requires w.Valid()
    ensures w'.Valid()
  {
    var s, r := w.sender, w.receiver;
    match step
    case Write(data) => w.(sender := s.(stream := s.stream.Write(data)))
    case Close => w.(sender := s.(stream := s.stream.(ended := true)))
    case Fill => w.(sender := s.FillWindow())
    case Tick(ms) => w.(sender := s.Tick(ms))
    case Empty => w.(sender := s.SendEmptySegment())
    case DeliverSegment(seg) =>
      w.(receiver := r.SegmentReceived(seg), finKept := w.finKept && (seg.header.fin ==> KeepsFin(r, seg)))
    case Read(n) => w.(receiver := r.Pop(n))
    case EmitAck => w.(acks := w.acks + {CurrentAck(r)})
    case DeliverAck(a) => w.(sender := s.AckReceived(a.ackno, a.window))
  }

  function Init(sendCapacity: nat, recvCapacity: nat, initialRto: u16, isn: u32): (w: World)
    ensures w.Valid()
  {
    World(NewSender(sendCapacity, initialRto, isn), NewReceiver(recvCapacity), {}, true)
  }

  function Run(w: World, steps: seq<Step>): (w': World)
    requires w.Valid()
    ensures w'.Valid()
  {
    if steps == [] then w else Next(Run(w, steps[..|steps| - 1]), steps[|steps| - 1])
  }

  ghost predicate Legal(w: World, steps: seq<Step>)
    requires w.Valid()
  {
    steps == [] || (Legal(w, steps[..|steps| - 1]) && Enabled(Run(w, steps[..|steps| - 1]), steps[|steps| - 1]))
  }

  lemma RunSnoc(w: World, steps: seq<Step>, v: World, step: Step, v': World)
    requires w.Valid() && Legal(w, steps) && Run(w, steps) == v && Enabled(v, step) && Next(v, step) == v'
    ensures Legal(w, steps + [step]) && Run(w, steps + [step]) == v'
  {
    assert (steps + [step])[..|steps|] == steps;
  }
}
