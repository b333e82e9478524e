/** Runs of any length: sequence numbers may go round many times, as long as each segment that is taken was sent less
    than half the number space away from the one taken before it. */
module LongRuns {
  import opened Machine
  import opened WrappingIntegers
  import opened Segments
  import opened TcpSender
  import opened TcpReceiver
  import opened SenderInvariant
  import opened SenderSteps
  import opened SenderProgress
  import opened TwoParty
  import opened TwoPartySafety
  import opened TwoPartyRuns

  /** A step of the channel that delivers a segment says at which number it was sent. */
  datatype LongStep = Arrive(seg: TcpSegment, from: nat) | Other(step: Step)

  function StepOf(t: LongStep): Step { if t.Arrive? then DeliverSegment(t.seg) else t.step }

  function Take(w: World, steps: seq<LongStep>): (w': World)
    requires w.Valid()
    ensures w'.Valid()
  {
    if steps == [] then w else Next(Take(w, steps[..|steps| - 1]), StepOf(steps[|steps| - 1]))
  }

  /** The receiver looks at the segment: the first SYN, or anything but a SYN after that. */
  predicate Looks(r: Receiver, seg: TcpSegment) { seg.header.syn != r.syn }

  /** The number of the last segment the receiver has looked at. */
  function Last(w: World, steps: seq<LongStep>): nat
    requires w.Valid()
  {
    if steps == [] then 0 else
    var before, t := steps[..|steps| - 1], steps[|steps| - 1];
    if t.Arrive? && Looks(Take(w, before).receiver, t.seg) then t.from else Last(w, before)
  }

  /** What is delivered has been sent at the number it is delivered for, and that is near the last one. */
  ghost predicate Arrives(s: Sender, seg: TcpSegment, from: nat, last: nat)
  {
    && seg in s.segmentsOut && from + seg.Length() <= s.nextSeqno
    && SentAt(seg, from, s.isn, s.stream.history, s.finSent) && Distance(from, last) < TWO31
  }

  ghost predicate Steady(w: World, steps: seq<LongStep>)
    requires w.Valid()
  {
    steps == [] ||
    var before, t := steps[..|steps| - 1], steps[|steps| - 1];
    var v := Take(w, before);
    && Steady(w, before)
    && if t.Arrive? then Arrives(v.sender, t.seg, t.from, Last(w, before))
       else !t.step.DeliverSegment? && Enabled(v, t.step)
  }

  /** What the receiver has is a part of what was sent, and its checkpoint is the last number it has looked at. */
  ghost predicate LongInv(w: World, last: nat)
  {
    && Inv(w.sender) && ReceiverOk(w.receiver, w.sender) && w.receiver.checkpoint == last
    && (w.acks != {} ==> w.sender.syn)
  }

  lemma ArriveInv(w: World, seg: TcpSegment, from: nat, last: nat)
    requires LongInv(w, last) && Arrives(w.sender, seg, from, last) && w.sender.nextSeqno + TWO31 < TWO64
    ensures LongInv(Next(w, DeliverSegment(seg)), if Looks(w.receiver, seg) then from else last)
  {
    var r, s := w.receiver, w.sender;
    ReceivedIs(r, s, seg, from);
    if Looks(r, seg) {
      AcceptOk(r, s, seg, from);
      AcceptFields(r, seg, s.isn, from);
    }
  }

  lemma SenderMoves(w: World, step: Step)
    requires Inv(w.sender) && w.receiver.Valid() && Enabled(w, step) && (w.acks != {} ==> w.sender.syn)
    ensures Inv(Next(w, step).sender) && Progress(w.sender, Next(w, step).sender)
  {
    var s := w.sender;
    match step
    case Write(data) => WriteInv(s, data);
    case Close => CloseInv(s);
    case Fill => FillMoves(s);
    case Tick(ms) => TickMoves(s, ms);
    case Empty => SendEmptyInv(s);
    case DeliverAck(a) => AckMoves(s, a.ackno, a.window);
    case _ =>
  }

  lemma FillMoves(s: Sender)
    requires Inv(s)
    ensures Inv(s.FillWindow()) && Progress(s, s.FillWindow())
  {
    FillWindowInv(s);
    FillProgress(s);
  }

  lemma TickMoves(s: Sender, ms: nat)
    requires Inv(s)
    ensures Inv(s.Tick(ms)) && Progress(s, s.Tick(ms))
  {
    TickInv(s, ms);
  }

  lemma AckMoves(s: Sender, ackno: u32, window: u16)
    requires Inv(s) && s.syn
    ensures Inv(s.AckReceived(ackno, window)) && Progress(s, s.AckReceived(ackno, window))
  {
    AckReceivedIs(s, ackno, window);
    AckReceivedInv(s, ackno, window);
    AckProgress(s, AckAbs(s, ackno), window);
  }

  lemma OtherInv(w: World, step: Step, last: nat)
    requires LongInv(w, last) && !step.DeliverSegment? && Enabled(w, step)
    ensures LongInv(Next(w, step), last)
  {
    SenderMoves(w, step);
    ReceiverOkGrows(w.receiver, w.sender, Next(w, step).sender);
  }

  lemma {:induction false} TakeInv(w: World, steps: seq<LongStep>)
    requires LongInv(w, 0) && Steady(w, steps) && Take(w, steps).sender.nextSeqno + TWO31 < TWO64
    ensures LongInv(Take(w, steps), Last(w, steps))
  {
    if steps != [] {
      var before, t := steps[..|steps| - 1], steps[|steps| - 1];
      var v := Take(w, before);
      NextMonotone(v, StepOf(t));
      TakeInv(w, before);
      if t.Arrive? { ArriveInv(v, t.seg, t.from, Last(w, before)); } else { OtherInv(v, t.step, Last(w, before)); }
    }
  }

  /** Prefix safety over runs of up to 2^64 - 2^31 sequence numbers: however often the 32-bit numbers go round, if each
      segment the receiver looks at was sent less than 2^31 away from the one before, its output is a prefix of what the
      application has written, and every segment is taken for the number it was sent at. */
  lemma LongPrefixSafety(sendCapacity: nat, recvCapacity: nat, initialRto: u16, isn: u32, steps: seq<LongStep>)
    requires var w := Init(sendCapacity, recvCapacity, initialRto, isn);
             Steady(w, steps) && Take(w, steps).sender.nextSeqno + TWO31 < TWO64
    ensures var w := Init(sendCapacity, recvCapacity, initialRto, isn);
            var v := Take(w, steps);
            && v.receiver.asm.out.history <= v.sender.stream.history
            && v.receiver.checkpoint == Last(w, steps)
  {
    NewInv(sendCapacity, initialRto, isn);
    TakeInv(Init(sendCapacity, recvCapacity, initialRto, isn), steps);
  }
}
