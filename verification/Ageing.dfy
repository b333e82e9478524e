/** How long an interface remembers an address, and when it asks again. */
module Ageing {
  import opened Machine
  import opened Ipv4Wire
  import opened NetworkInterface
  import opened InterfaceRuns

  lemma SendStays(i: Interface, dgram: Datagram, hop: u32)
    ensures var j := i.SendDatagram(dgram, hop); j.time == i.time && j.eth == i.eth && j.ip == i.ip
  {
  }

  lemma RecvStays(i: Interface, frame: Frame)
    ensures var j := i.RecvFrame(frame).0; j.time == i.time && j.eth == i.eth && j.ip == i.ip
  {
  }

  /** Time only passes, and the interface keeps its addresses. */
  lemma TimePasses(i: Interface, e: Event)
    ensures var j := Apply(i, e); i.time <= j.time && j.eth == i.eth && j.ip == i.ip
  {
    match e
    case Send(dgram, hop) => SendStays(i, dgram, hop);
    case Recv(frame) => RecvStays(i, frame);
    case Elapse(_) =>
  }

  /** What the tables say about a hop. */
  ghost predicate SameEntry(i: Interface, j: Interface, hop: u32)
  {
    && hop in i.timeouts && hop in j.timeouts && j.timeouts[hop] == i.timeouts[hop]
    && (hop in i.ipToEth ==> hop in j.ipToEth && j.ipToEth[hop] == i.ipToEth[hop])
  }

  lemma ApplyKeeps(i: Interface, e: Event, hop: u32)
    requires hop in i.timeouts && Apply(i, e).time <= i.timeouts[hop] + 30000
    ensures SameEntry(i, Apply(i, e), hop)
  {
    match e
    case Send(dgram, h) => assert SameEntry(i, i.SendDatagram(dgram, h), hop);
    case Recv(frame) => RecvKeeps(i, frame, hop);
    case Elapse(_) =>
  }

  lemma RecvKeeps(i: Interface, frame: Frame, hop: u32)
    requires hop in i.timeouts
    ensures SameEntry(i, i.RecvFrame(frame).0, hop)
  {
  }

  lemma {:induction false} EntryLives(i: Interface, events: seq<Event>, hop: u32)
    requires hop in i.timeouts && Run(i, events).time <= i.timeouts[hop] + 30000
    ensures SameEntry(i, Run(i, events), hop)
  {
    if events != [] {
      var m := |events| - 1;
      TimePasses(Run(i, events[..m]), events[m]);
      EntryLives(i, events[..m], hop);
      ApplyKeeps(Run(i, events[..m]), events[m], hop);
    }
  }

  lemma RunSnoc(i: Interface, events: seq<Event>, e: Event, j: Interface)
    requires Run(i, events) == j
    ensures Run(i, events + [e]) == Apply(j, e)
  {
    assert (events + [e])[..|events|] == events;
  }

  lemma AppendSnoc(i: Interface, events: seq<Event>, before: seq<Event>, e: Event, j: Interface, k: Interface)
    requires Run(i, events + before) == k && Run(j, before) == k
    ensures Run(i, events + (before + [e])) == Run(j, before + [e])
  {
    RunSnoc(i, events + before, e, k);
    RunSnoc(j, before, e, k);
    assert events + (before + [e]) == events + before + [e];
  }

  lemma {:induction false} RunAppend(i: Interface, events: seq<Event>, more: seq<Event>, j: Interface)
    requires Run(i, events) == j
    ensures Run(i, events + more) == Run(j, more)
  {
    if more == [] {
      assert events + more == events;
    } else {
      var before, e := more[..|more| - 1], more[|more| - 1];
      RunAppend(i, events, before, j);
      AppendSnoc(i, events, before, e, j, Run(j, before));
      assert before + [e] == more;
    }
  }

  /** The lifetime of a mapping, both ways: in every run a mapping stays as it is up to and including 30000 ms after the
      time of its entry, whatever else happens; and a mapping that is there later has an entry of its own, which is
      no older than that. */
  lemma MappingLifetime(eth: EthernetAddress, ip: u32, events: seq<Event>, more: seq<Event>, hop: u32)
    requires hop in Run(NewInterface(eth, ip), events).ipToEth
    ensures var i := Run(NewInterface(eth, ip), events);
            var j := Run(i, more);
            && hop in i.timeouts
            && (j.time <= i.timeouts[hop] + 30000 ==> hop in j.ipToEth && j.ipToEth[hop] == i.ipToEth[hop])
            && (j.time > i.timeouts[hop] + 30000 && hop in j.ipToEth ==>
                  hop in j.timeouts && i.timeouts[hop] < j.timeouts[hop] && j.time <= j.timeouts[hop] + 30000)
  {
    var i := Run(NewInterface(eth, ip), events);
    RunFresh(eth, ip, events);
    RunFresh(eth, ip, events + more);
    RunAppend(NewInterface(eth, ip), events, more, i);
    if Run(i, more).time <= i.timeouts[hop] + 30000 { EntryLives(i, more, hop); }
  }

  // Requests

  /** The request, in full: broadcast, from us, for the hop. */
  function Question(i: Interface, hop: u32): Frame
  {
    Frame(i.eth, 0xffff_ffff_ffff, Arp(ArpMessage(1, i.eth, i.ip, 0, hop)))
  }

  /** Sending to an unknown hop asks for its address exactly if there is no entry for it or the entry is more than 5000
      ms old; a new entry has the current time. */
  lemma AsksIff(i: Interface, dgram: Datagram, hop: u32)
    requires hop !in i.ipToEth
    ensures var j, due := i.SendDatagram(dgram, hop), hop !in i.timeouts || i.time > i.timeouts[hop] + 5000;
            && j.framesOut == i.framesOut + (if due then [Question(i, hop)] else [])
            && hop in j.timeouts && j.timeouts[hop] == (if hop in i.timeouts then i.timeouts[hop] else i.time)
            && hop !in j.ipToEth && j.time == i.time
  {
    assert i.framesOut + [] == i.framesOut;
  }

  /** No ARP message from the hop arrives. */
  predicate Unanswered(events: seq<Event>, hop: u32)
  {
    forall e <- events :: e.Recv? && e.frame.body.Arp? ==> e.frame.body.arp.senderIp != hop
  }

  lemma {:induction false} StaysUnknown(i: Interface, events: seq<Event>, hop: u32)
    requires hop !in i.ipToEth && Unanswered(events, hop)
    ensures hop !in Run(i, events).ipToEth
  {
    if events != [] {
      var m := |events| - 1;
      assert events[m] in events;
      StaysUnknown(i, events[..m], hop);
      ApplyUnknown(Run(i, events[..m]), events[m], hop);
    }
  }

  lemma ApplyUnknown(i: Interface, e: Event, hop: u32)
    requires hop !in i.ipToEth && (e.Recv? && e.frame.body.Arp? ==> e.frame.body.arp.senderIp != hop)
    ensures hop !in Apply(i, e).ipToEth
  {
  }

  lemma {:induction false} SameAddresses(i: Interface, events: seq<Event>)
    ensures Run(i, events).eth == i.eth && Run(i, events).ip == i.ip
  {
    if events != [] {
      SameAddresses(i, events[..|events| - 1]);
      TimePasses(Run(i, events[..|events| - 1]), events[|events| - 1]);
    }
  }

  /** A request that is not answered: after the first one none goes out for 5000 ms, and from then on every send asks
      again, until the entry expires 30000 ms after the first. */
  lemma AsksAgain(i: Interface, dgram: Datagram, hop: u32, events: seq<Event>, next: Datagram)
    requires hop !in i.ipToEth && hop !in i.timeouts && Unanswered(events, hop)
    requires Run(i.SendDatagram(dgram, hop), events).time <= i.time + 30000
    ensures i.SendDatagram(dgram, hop).framesOut == i.framesOut + [Question(i, hop)]
    ensures var j := Run(i.SendDatagram(dgram, hop), events);
            j.SendDatagram(next, hop).framesOut ==
              j.framesOut + (if j.time > i.time + 5000 then [Question(i, hop)] else [])
  {
    var i1 := i.SendDatagram(dgram, hop);
    AsksIff(i, dgram, hop);
    EntryLives(i1, events, hop);
    StaysUnknown(i1, events, hop);
    SameAddresses(i1, events);
    AsksIff(Run(i1, events), next, hop);
  }


  /** The answer, in full: to the sender of the frame, from us, for the one who asked. */
  function Reply(i: Interface, frame: Frame): Frame
    requires frame.body.Arp?
  {
    Frame(i.eth, frame.src, Arp(ArpMessage(2, i.eth, i.ip, frame.src, frame.body.arp.senderIp)))
  }

  /** A received frame is answered exactly if it is for us and carries a request for our address; what it makes the
      interface send otherwise is what an ARP reply releases, and nothing else. */
  lemma RepliesIff(i: Interface, frame: Frame)
    requires !i.Releases(frame)
    ensures var asks := i.ForUs(frame) && frame.body.Arp? && frame.body.arp.opcode == 1 &&
                        frame.body.arp.targetIp == i.ip;
            i.RecvFrame(frame).0.framesOut == i.framesOut + (if asks then [Reply(i, frame)] else [])
  {
    assert i.framesOut + [] == i.framesOut;
  }

  /** A message teaches the address of its sender, that is, the source of the frame, exactly if it is for us and there
      is no mapping for the sender. */
  lemma LearnsIff(i: Interface, frame: Frame, hop: u32)
    ensures var j := i.RecvFrame(frame).0;
            var learns := i.ForUs(frame) && frame.body.Arp? && frame.body.arp.senderIp == hop && hop !in i.ipToEth;
            && (hop in j.ipToEth <==> hop in i.ipToEth || learns)
            && (hop in j.ipToEth ==> j.ipToEth[hop] == if learns then frame.src else i.ipToEth[hop])
            && (learns ==>
                  hop in j.timeouts && j.timeouts[hop] == if hop in i.timeouts then i.timeouts[hop] else i.time)
  {
  }
}
