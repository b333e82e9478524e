/** What holds of a network interface over whole runs. */
module InterfaceRuns {
  import opened Machine
  import opened Ipv4Wire
  import opened NetworkInterface

  datatype Event = Send(dgram: Datagram, hop: u32) | Recv(frame: Frame) | Elapse(ms: nat)

  function Apply(i: Interface, e: Event): Interface
  {
    match e
    case Send(dgram, hop) => i.SendDatagram(dgram, hop)
    case Recv(frame) => i.RecvFrame(frame).0
    case Elapse(ms) => i.Tick(ms)
  }

  function Run(i: Interface, events: seq<Event>): Interface
  {
    if events == [] then i else Apply(Run(i, events[..|events| - 1]), events[|events| - 1])
  }

  /** The datagrams in the IPv4 frames among `frames`. */
  function Carried(frames: seq<Frame>): seq<Datagram>
  {
    if frames == [] then []
    else (if frames[0].body.Ip? then [frames[0].body.dgram] else []) + Carried(frames[1..])
  }

  /** The frames an event puts out. */
  function Emitted(i: Interface, e: Event): seq<Frame>
  {
    var after := Apply(i, e).framesOut;
    if |i.framesOut| <= |after| then after[|i.framesOut|..] else []
  }

  /** The next hop whose queue an event may flush. */
  function FlushedHop(i: Interface, e: Event): Option<u32>
  {
    match e
    case Send(_, hop) => Some(hop)
    case Recv(frame) =>
      if i.Releases(frame) then Some(frame.body.arp.senderIp) else None
    case Elapse(_) => None
  }

  /** The datagrams submitted for a hop, and those sent to it, in order. */
  function Submitted(events: seq<Event>, hop: u32): seq<Datagram>
  {
    if events == [] then [] else
    var e := events[|events| - 1];
    Submitted(events[..|events| - 1], hop) + (if e.Send? && e.hop == hop then [e.dgram] else [])
  }

  function SentTo(i: Interface, events: seq<Event>, hop: u32): seq<Datagram>
  {
    if events == [] then [] else
    var before, e := Run(i, events[..|events| - 1]), events[|events| - 1];
    SentTo(i, events[..|events| - 1], hop) +
    (if FlushedHop(before, e) == Some(hop) then Carried(Emitted(before, e)) else [])
  }

  lemma {:induction false} CarriedIp(src: EthernetAddress, dst: EthernetAddress, dgrams: seq<Datagram>)
    ensures Carried(IpFrames(src, dst, dgrams)) == dgrams
  {
    if dgrams != [] {
      CarriedIp(src, dst, dgrams[1..]);
      assert IpFrames(src, dst, dgrams)[1..] == IpFrames(src, dst, dgrams[1..]);
    }
  }

  lemma CarriedArp(frame: Frame)
    requires !frame.body.Ip?
    ensures Carried([frame]) == []
  {
    assert [frame][1..] == [];
  }

  /** What a flush of the queue `q` does to the frames. */
  lemma FlushFrames(i: Interface, hop: u32, address: EthernetAddress, q: seq<Datagram>, out: seq<Frame>)
    requires q == i.Queue(hop) && out == IpFrames(i.eth, address, q[..Ready(q)])
    ensures i.Flush(hop, address).framesOut == i.framesOut + out && Carried(out) == q[..Ready(q)]
  {
    CarriedIp(i.eth, address, q[..Ready(q)]);
  }

  /** And to the queues. */
  lemma FlushQueues(i: Interface, hop: u32, address: EthernetAddress, q: seq<Datagram>, h: u32)
    requires q == i.Queue(hop)
    ensures i.Flush(hop, address).Queue(h) == if h == hop then q[Ready(q)..] else i.Queue(h)
  {
  }

  lemma SplitAt(q: seq<Datagram>, n: nat)
    requires n <= |q|
    ensures q[..n] + q[n..] == q
  {
  }

  lemma FlushEmits(i: Interface, hop: u32, address: EthernetAddress, h: u32) returns (out: seq<Frame>)
    ensures out == IpFrames(i.eth, address, i.Queue(hop)[..Ready(i.Queue(hop))])
    ensures i.Flush(hop, address).framesOut == i.framesOut + out
    ensures (if h == hop then Carried(out) else []) + i.Flush(hop, address).Queue(h) == i.Queue(h)
  {
    var q := i.Queue(hop);
    out := IpFrames(i.eth, address, q[..Ready(q)]);
    FlushFrames(i, hop, address, q, out);
    FlushQueues(i, hop, address, q, h);
    SplitAt(q, Ready(q));
  }

  /** One event: what it sends to the hop it flushes, with what stays queued, is what was queued with what it
      submits; no other queue changes, and nothing goes out for any other hop. */
  lemma ApplyConserves(i: Interface, e: Event, hop: u32)
    ensures var out := Carried(Emitted(i, e));
            var sent := if FlushedHop(i, e) == Some(hop) then out else [];
            && sent + Apply(i, e).Queue(hop) == i.Queue(hop) + (if e.Send? && e.hop == hop then [e.dgram] else [])
            && (FlushedHop(i, e).None? ==> out == [])
  {
    match e
    case Send(dgram, h) => SendConserves(i, dgram, h, hop);
    case Recv(frame) => RecvConserves(i, frame, hop);
    case Elapse(ms) =>
      assert Emitted(i, e) == [];
  }

  lemma SendConserves(i: Interface, dgram: Datagram, h: u32, hop: u32)
    ensures var e := Send(dgram, h);
            var sent := if h == hop then Carried(Emitted(i, e)) else [];
            sent + Apply(i, e).Queue(hop) == i.Queue(hop) + (if h == hop then [dgram] else [])
  {
    if h in i.ipToEth { SendKnown(i, dgram, h, hop); } else { SendUnknown(i, dgram, h, hop); }
  }

  /** What an event puts out, when that is known. */
  lemma EmittedIs(i: Interface, e: Event, out: seq<Frame>)
    requires Apply(i, e).framesOut == i.framesOut + out
    ensures Emitted(i, e) == out
  {
  }

  lemma EnqueueQueues(i: Interface, dgram: Datagram, h: u32, hop: u32)
    ensures i.Enqueue(dgram, h).Queue(hop) == i.Queue(hop) + (if h == hop then [dgram] else [])
    ensures i.Enqueue(dgram, h).framesOut == i.framesOut
  {
  }

  lemma SendKnown(i: Interface, dgram: Datagram, h: u32, hop: u32)
    requires h in i.ipToEth
    ensures var e := Send(dgram, h);
            var sent := if h == hop then Carried(Emitted(i, e)) else [];
            sent + Apply(i, e).Queue(hop) == i.Queue(hop) + (if h == hop then [dgram] else [])
  {
    EnqueueQueues(i, dgram, h, hop);
    var out := FlushEmits(i.Enqueue(dgram, h), h, i.ipToEth[h], hop);
    EmittedIs(i, Send(dgram, h), out);
  }

  lemma SendUnknown(i: Interface, dgram: Datagram, h: u32, hop: u32)
    requires h !in i.ipToEth
    ensures var e := Send(dgram, h);
            && Carried(Emitted(i, e)) == []
            && Apply(i, e).Queue(hop) == i.Queue(hop) + (if h == hop then [dgram] else [])
  {
    var e, j := Send(dgram, h), i.Enqueue(dgram, h);
    EnqueueQueues(i, dgram, h, hop);
    if j.Ask(h) == j {
      EmittedIs(i, e, []);
    } else {
      EmittedIs(i, e, [j.Request(h)]);
      CarriedArp(j.Request(h));
    }
  }

  lemma AnswerConserves(i: Interface, j: Interface, m: ArpMessage, src: EthernetAddress, hop: u32)
    requires j.framesOut == i.framesOut && j.queues == i.queues && j.eth == i.eth && j.ip == i.ip
    ensures var k := j.Answer(m, src);
            && i.framesOut <= k.framesOut
            && var out := Carried(k.framesOut[|i.framesOut|..]);
               var flushes := m.targetIp == i.ip && m.opcode == OPCODE_REPLY;
               && (if flushes && hop == m.senderIp then out else []) + k.Queue(hop) == i.Queue(hop)
               && (!flushes ==> out == [])
  {
    var k := j.Answer(m, src);
    var frames := k.framesOut[|i.framesOut|..];
    if m.targetIp == i.ip && m.opcode == OPCODE_REQUEST {
      var reply := Frame(j.eth, src, Arp(ArpMessage(OPCODE_REPLY, j.eth, j.ip, src, m.senderIp)));
      assert frames == [reply];
      CarriedArp(reply);
    } else if m.targetIp == i.ip && m.opcode == OPCODE_REPLY {
      var out := FlushEmits(j, m.senderIp, m.senderEth, hop);
      assert frames == out;
    } else {
      assert frames == [];
    }
  }

  lemma RecvConserves(i: Interface, frame: Frame, hop: u32)
    ensures var e := Recv(frame);
            var out := Carried(Emitted(i, e));
            var sent := if FlushedHop(i, e) == Some(hop) then out else [];
            && sent + Apply(i, e).Queue(hop) == i.Queue(hop)
            && (FlushedHop(i, e).None? ==> out == [])
  {
    if i.ForUs(frame) && frame.body.Arp? {
      AnswerConserves(i, i.Learn(frame.body.arp, frame.src), frame.body.arp, frame.src, hop);
    } else {
      assert Emitted(i, Recv(frame)) == [];
    }
  }

  /** Conservation: over any run, the datagrams sent to a hop followed by those still queued for it are exactly
      the datagrams submitted for it, in order and each once. */
  lemma {:induction false} Conservation(eth: EthernetAddress, ip: u32, events: seq<Event>, hop: u32)
    ensures var i := NewInterface(eth, ip);
            SentTo(i, events, hop) + Run(i, events).Queue(hop) == Submitted(events, hop)
  {
    if events != [] {
      var i := NewInterface(eth, ip);
      var m := |events| - 1;
      var before, e := Run(i, events[..m]), events[m];
      Conservation(eth, ip, events[..m], hop);
      ApplyConserves(before, e, hop);
      var sent := if FlushedHop(before, e) == Some(hop) then Carried(Emitted(before, e)) else [];
      var more := if e.Send? && e.hop == hop then [e.dgram] else [];
      Chained(SentTo(i, events[..m], hop), before.Queue(hop), Submitted(events[..m], hop),
              sent, Apply(before, e).Queue(hop), more);
    }
  }

  lemma Chained(past: seq<Datagram>, waiting: seq<Datagram>, submitted: seq<Datagram>,
                sent: seq<Datagram>, queued: seq<Datagram>, more: seq<Datagram>)
    requires past + waiting == submitted && sent + queued == waiting + more
    ensures (past + sent) + queued == submitted + more
  {
    assert (past + sent) + queued == past + (sent + queued);
    assert past + (waiting + more) == (past + waiting) + more;
  }

  /** When a mapping was learned, and from what address. */
  datatype Lesson = Lesson(time: nat, address: EthernetAddress)

  /** The last lesson for each address in a run: the events that put a mapping into the table. */
  function Lessons(i: Interface, events: seq<Event>): map<u32, Lesson>
  {
    if events == [] then map[] else
    var before, e := Run(i, events[..|events| - 1]), events[|events| - 1];
    var known := Lessons(i, events[..|events| - 1]);
    if e.Recv? && before.ForUs(e.frame) && e.frame.body.Arp? && e.frame.body.arp.senderIp !in before.ipToEth
    then known[e.frame.body.arp.senderIp := Lesson(before.time, e.frame.src)]
    else known
  }

  /** No entry of the timeout table is older than 30000 ms, and every mapping has one that is no younger than
      the lesson it came from. */
  ghost predicate Fresh(i: Interface, lessons: map<u32, Lesson>)
  {
    && (forall hop :: hop in i.timeouts ==> i.timeouts[hop] <= i.time <= i.timeouts[hop] + 30000)
    && (forall hop :: hop in i.ipToEth ==>
          && hop in i.timeouts && hop in lessons && i.ipToEth[hop] == lessons[hop].address
          && i.timeouts[hop] <= lessons[hop].time <= i.time)
  }

  lemma TickFresh(i: Interface, ms: nat, lessons: map<u32, Lesson>)
    requires Fresh(i, lessons)
    ensures Fresh(i.Tick(ms), lessons)
  {
    var j := i.Tick(ms);
    forall hop | hop in j.timeouts ensures j.timeouts[hop] <= j.time <= j.timeouts[hop] + 30000 {
      assert !i.Expired(hop, j.time);
    }
  }

  lemma SendFresh(i: Interface, dgram: Datagram, hop: u32, lessons: map<u32, Lesson>)
    requires Fresh(i, lessons)
    ensures Fresh(i.SendDatagram(dgram, hop), lessons)
  {
  }

  lemma LearnFresh(i: Interface, m: ArpMessage, src: EthernetAddress, lessons: map<u32, Lesson>)
    requires Fresh(i, lessons)
    ensures Fresh(i.Learn(m, src),
                  if m.senderIp in i.ipToEth then lessons else lessons[m.senderIp := Lesson(i.time, src)])
  {
  }

  lemma RecvFresh(i: Interface, m: ArpMessage, src: EthernetAddress, lessons: map<u32, Lesson>)
    requires Fresh(i, lessons)
    ensures Fresh(i.Learn(m, src).Answer(m, src),
                  if m.senderIp in i.ipToEth then lessons else lessons[m.senderIp := Lesson(i.time, src)])
  {
    LearnFresh(i, m, src, lessons);
  }

  lemma {:induction false} RunFresh(eth: EthernetAddress, ip: u32, events: seq<Event>)
    ensures Fresh(Run(NewInterface(eth, ip), events), Lessons(NewInterface(eth, ip), events))
  {
    if events != [] {
      var i, m := NewInterface(eth, ip), |events| - 1;
      var before, known := Run(i, events[..m]), Lessons(i, events[..m]);
      RunFresh(eth, ip, events[..m]);
      match events[m]
      case Send(dgram, hop) => SendFresh(before, dgram, hop, known);
      case Recv(frame) =>
        if before.ForUs(frame) && frame.body.Arp? { RecvFresh(before, frame.body.arp, frame.src, known); }
      case Elapse(ms) => TickFresh(before, ms, known);
    }
  }

  /** Ageing: with an address in the table what is queued for a hop goes out at once, up to the first datagram that
      cannot be serialized, to an address learned for that hop no more than 30000 ms before. */
  lemma MappingsAge(eth: EthernetAddress, ip: u32, events: seq<Event>, dgram: Datagram, hop: u32)
    requires hop in Run(NewInterface(eth, ip), events).ipToEth
    ensures var i, lessons := Run(NewInterface(eth, ip), events), Lessons(NewInterface(eth, ip), events);
            && hop in lessons && i.time <= lessons[hop].time + 30000
            && var q := i.Queue(hop) + [dgram];
               i.SendDatagram(dgram, hop).framesOut ==
                 i.framesOut + IpFrames(i.eth, lessons[hop].address, q[..Ready(q)])
  {
    RunFresh(eth, ip, events);
  }

  /** The address the table has for a hop after the event. */
  function Learned(i: Interface, e: Event, hop: u32): Option<EthernetAddress>
  {
    if hop in i.ipToEth then Some(i.ipToEth[hop])
    else if e.Recv? && i.Releases(e.frame) && e.frame.body.arp.senderIp == hop then Some(e.frame.src)
    else None
  }

  /** The address an event sends the queue of its hop to: that of the table, or the one in an ARP reply. */
  function Destination(i: Interface, e: Event): Option<EthernetAddress>
  {
    match e
    case Send(_, hop) => if hop in i.ipToEth then Some(i.ipToEth[hop]) else None
    case Recv(frame) => if i.Releases(frame) then Some(frame.body.arp.senderEth) else None
    case Elapse(_) => None
  }

  /** All datagrams among the frames go to `address`. */
  ghost predicate AllTo(frames: seq<Frame>, address: EthernetAddress)
  {
    forall f <- frames :: f.body.Ip? ==> f.dst == address
  }

  lemma FramesTo(src: EthernetAddress, dst: EthernetAddress, dgrams: seq<Datagram>, address: EthernetAddress)
    requires dgrams != []
    ensures AllTo(IpFrames(src, dst, dgrams), address) <==> dst == address
  {
    var frames := IpFrames(src, dst, dgrams);
    assert frames[0] in frames;
  }

  lemma FlushGoesTo(j: Interface, hop: u32, dst: EthernetAddress, address: EthernetAddress) returns (out: seq<Frame>)
    ensures j.Flush(hop, dst).framesOut == j.framesOut + out
    ensures Carried(out) != [] ==> (AllTo(out, address) <==> dst == address)
  {
    var q := j.Queue(hop);
    out := FlushEmits(j, hop, dst, hop);
    if q[..Ready(q)] != [] { FramesTo(j.eth, dst, q[..Ready(q)], address); }
  }

  lemma SendGoesTo(i: Interface, dgram: Datagram, hop: u32, address: EthernetAddress)
    requires Carried(Emitted(i, Send(dgram, hop))) != []
    ensures hop in i.ipToEth && (AllTo(Emitted(i, Send(dgram, hop)), address) <==> i.ipToEth[hop] == address)
  {
    if hop in i.ipToEth {
      var out := FlushGoesTo(i.Enqueue(dgram, hop), hop, i.ipToEth[hop], address);
      EmittedIs(i, Send(dgram, hop), out);
    } else {
      SendUnknown(i, dgram, hop, hop);
    }
  }

  lemma ReleaseGoesTo(i: Interface, frame: Frame, address: EthernetAddress)
    requires i.Releases(frame) && Carried(Emitted(i, Recv(frame))) != []
    ensures AllTo(Emitted(i, Recv(frame)), address) <==> frame.body.arp.senderEth == address
  {
    var m := frame.body.arp;
    var out := FlushGoesTo(i.Learn(m, frame.src), m.senderIp, m.senderEth, address);
    EmittedIs(i, Recv(frame), out);
  }

  /** What an event sends to the hop it flushes goes to its destination. */
  lemma GoesTo(i: Interface, e: Event, hop: u32, address: EthernetAddress)
    requires FlushedHop(i, e) == Some(hop) && Carried(Emitted(i, e)) != []
    ensures Destination(i, e).Some? && (AllTo(Emitted(i, e), address) <==> Destination(i, e).value == address)
  {
    match e
    case Send(dgram, _) => SendGoesTo(i, dgram, hop, address);
    case Recv(frame) => ReleaseGoesTo(i, frame, address);
  }

  /** Both ways out: in every run, whenever an event sends datagrams to a hop, the table has an address for it, the one
      of the last lesson, which is no more than 30000 ms old. All of them go to that address if and only if the event
      is a send, or an ARP reply that names as its sender the address in the table. */
  lemma DestinationIff(eth: EthernetAddress, ip: u32, events: seq<Event>, e: Event, hop: u32)
    requires var i := Run(NewInterface(eth, ip), events); FlushedHop(i, e) == Some(hop) && Carried(Emitted(i, e)) != []
    ensures var i, lessons := Run(NewInterface(eth, ip), events), Lessons(NewInterface(eth, ip), events + [e]);
            && hop in lessons && i.time <= lessons[hop].time + 30000
            && Learned(i, e, hop) == Some(lessons[hop].address)
            && (AllTo(Emitted(i, e), lessons[hop].address) <==>
                  (e.Recv? ==> e.frame.body.arp.senderEth == Learned(i, e, hop).value))
  {
    var i := Run(NewInterface(eth, ip), events);
    assert (events + [e])[..|events|] == events;
    RunFresh(eth, ip, events);
    RunFresh(eth, ip, events + [e]);
    GoesTo(i, e, hop, Lessons(NewInterface(eth, ip), events + [e])[hop].address);
  }

  /** Address resolution between two interfaces: the request for an unknown next hop reaches the interface that has
      that address, its answer teaches the first one the right Ethernet address, and what is queued for the hop
      goes out to it in order, up to the first datagram that cannot be serialized. */
  lemma Resolves(i: Interface, j: Interface, dgram: Datagram)
    requires j.ip !in i.ipToEth && j.ip !in i.timeouts
    ensures var i1 := i.SendDatagram(dgram, j.ip);
            && i1.framesOut == i.framesOut + [i.Request(j.ip)]
            && var j1 := j.RecvFrame(i.Request(j.ip)).0;
               && |j1.framesOut| == |j.framesOut| + 1
               && i.ip in j1.ipToEth && (i.ip !in j.ipToEth ==> j1.ipToEth[i.ip] == i.eth)
               && var i2 := i1.RecvFrame(j1.framesOut[|j.framesOut|]).0;
                  && j.ip in i2.ipToEth && i2.ipToEth[j.ip] == j.eth
                  && var q := i.Queue(j.ip) + [dgram];
                     && i2.framesOut == i1.framesOut + IpFrames(i.eth, j.eth, q[..Ready(q)])
                     && i2.Queue(j.ip) == q[Ready(q)..]
  {
  }
}
