/** What an interface hands up, and what crosses the link: the interface that has the address of a hop gets exactly the
    datagrams sent to that hop, and no other interface gets any. */
module Deliveries {
  import opened Machine
  import opened Ipv4Wire
  import opened NetworkInterface
  import opened InterfaceRuns

  /** A received frame is handed up exactly if it is for us and carries a datagram, and then nothing else happens. */
  lemma HandedUp(i: Interface, frame: Frame)
    ensures var (i', r) := i.RecvFrame(frame);
            && (forall d ::
                  r == Some(d) <==> (frame.dst == i.eth || frame.dst == 0xffff_ffff_ffff) && frame.body == Ip(d))
            && (r.Some? ==> i' == i) && i'.eth == i.eth
  {
  }

  /** An interface after it has received the frames, and what it has handed up, in order. */
  function After(j: Interface, frames: seq<Frame>): Interface
  {
    if frames == [] then j else After(j, frames[..|frames| - 1]).RecvFrame(frames[|frames| - 1]).0
  }

  function Handed(j: Interface, frames: seq<Frame>): seq<Datagram>
  {
    if frames == [] then [] else
    var r := After(j, frames[..|frames| - 1]).RecvFrame(frames[|frames| - 1]).1;
    Handed(j, frames[..|frames| - 1]) + (if r.Some? then [r.value] else [])
  }

  predicate Reaches(frame: Frame, eth: EthernetAddress)
  {
    frame.body.Ip? && (frame.dst == eth || frame.dst == ETHERNET_BROADCAST)
  }

  /** The datagrams in the frames for an address. */
  function CarriedTo(frames: seq<Frame>, eth: EthernetAddress): seq<Datagram>
  {
    if frames == [] then [] else
    CarriedTo(frames[..|frames| - 1], eth) +
    (if Reaches(frames[|frames| - 1], eth) then [frames[|frames| - 1].body.dgram] else [])
  }

  lemma {:induction false} HandedIs(j: Interface, frames: seq<Frame>)
    ensures After(j, frames).eth == j.eth && Handed(j, frames) == CarriedTo(frames, j.eth)
  {
    if frames != [] {
      HandedIs(j, frames[..|frames| - 1]);
      HandedUp(After(j, frames[..|frames| - 1]), frames[|frames| - 1]);
    }
  }

  lemma {:induction false} CarriedToAppend(a: seq<Frame>, b: seq<Frame>, eth: EthernetAddress)
    ensures CarriedTo(a + b, eth) == CarriedTo(a, eth) + CarriedTo(b, eth)
  {
    if b == [] {
      assert a + b == a;
    } else {
      var n := |b| - 1;
      CarriedToAppend(a, b[..n], eth);
      assert (a + b)[..|a + b| - 1] == a + b[..n];
    }
  }

  /** Frames that all carry datagrams to one address. */
  lemma {:induction false} CarriedToOne(src: EthernetAddress, dst: EthernetAddress, q: seq<Datagram>,
                                        eth: EthernetAddress)
    requires dst != ETHERNET_BROADCAST
    ensures CarriedTo(IpFrames(src, dst, q), eth) == if dst == eth then q else []
  {
    if q != [] {
      var n := |q| - 1;
      CarriedToOne(src, dst, q[..n], eth);
      assert IpFrames(src, dst, q)[..n] == IpFrames(src, dst, q[..n]);
      assert q[..n] + [q[n]] == q;
    }
  }

  lemma CarriedToNone(frame: Frame, eth: EthernetAddress)
    requires !frame.body.Ip?
    ensures CarriedTo([frame], eth) == []
  {
    assert [frame][..0] == [];
  }

  // The network

  /** On the network `eth` is the address of `owner` and of nobody else, and nobody claims the broadcast address. */
  ghost predicate Owns(events: seq<Event>, owner: Option<u32>, eth: EthernetAddress)
  {
    eth != ETHERNET_BROADCAST && forall e <- events :: Names(e, owner, eth)
  }

  predicate Names(e: Event, owner: Option<u32>, eth: EthernetAddress)
  {
    e.Recv? && e.frame.body.Arp? ==>
      var m := e.frame.body.arp;
      && (owner == Some(m.senderIp) <==> e.frame.src == eth) && (owner == Some(m.senderIp) <==> m.senderEth == eth)
      && e.frame.src != ETHERNET_BROADCAST && m.senderEth != ETHERNET_BROADCAST
  }

  /** The table says so, too. */
  ghost predicate Knows(i: Interface, owner: Option<u32>, eth: EthernetAddress)
  {
    forall h :: h in i.ipToEth ==>
      (owner == Some(h) <==> i.ipToEth[h] == eth) && i.ipToEth[h] != ETHERNET_BROADCAST
  }

  lemma ApplyKnows(i: Interface, e: Event, owner: Option<u32>, eth: EthernetAddress)
    requires Knows(i, owner, eth) && Names(e, owner, eth)
    ensures Knows(Apply(i, e), owner, eth)
  {
  }

  lemma {:induction false} RunKnows(i: Interface, events: seq<Event>, owner: Option<u32>, eth: EthernetAddress)
    requires Knows(i, owner, eth) && Owns(events, owner, eth)
    ensures Knows(Run(i, events), owner, eth)
  {
    if events != [] {
      var m := |events| - 1;
      assert events[m] in events;
      RunKnows(i, events[..m], owner, eth);
      ApplyKnows(Run(i, events[..m]), events[m], owner, eth);
    }
  }

  // One event

  /** What an event sends to the address is what it sends to the owner. */
  ghost predicate Arrives(i: Interface, e: Event, out: seq<Frame>, owner: Option<u32>, eth: EthernetAddress)
  {
    && Apply(i, e).framesOut == i.framesOut + out
    && CarriedTo(out, eth) == if owner.Some? && FlushedHop(i, e) == owner then Carried(out) else []
  }

  lemma FlushArrives(j: Interface, h: u32, dst: EthernetAddress, eth: EthernetAddress) returns (out: seq<Frame>)
    requires dst != ETHERNET_BROADCAST
    ensures j.Flush(h, dst).framesOut == j.framesOut + out
    ensures CarriedTo(out, eth) == if dst == eth then Carried(out) else []
  {
    var q := j.Queue(h);
    out := FlushEmits(j, h, dst, h);
    CarriedIp(j.eth, dst, q[..Ready(q)]);
    CarriedToOne(j.eth, dst, q[..Ready(q)], eth);
  }

  lemma SendArrives(i: Interface, dgram: Datagram, h: u32, owner: Option<u32>, eth: EthernetAddress)
    returns (out: seq<Frame>)
    requires Knows(i, owner, eth)
    ensures Arrives(i, Send(dgram, h), out, owner, eth)
  {
    var j := i.Enqueue(dgram, h);
    EnqueueQueues(i, dgram, h, h);
    if h in i.ipToEth {
      out := FlushArrives(j, h, i.ipToEth[h], eth);
    } else if j.Ask(h) == j {
      out := [];
      assert i.framesOut + out == i.framesOut;
    } else {
      out := [j.Request(h)];
      CarriedArp(j.Request(h));
      CarriedToNone(j.Request(h), eth);
    }
  }

  lemma AnswerArrives(i: Interface, frame: Frame, owner: Option<u32>, eth: EthernetAddress) returns (out: seq<Frame>)
    requires i.ForUs(frame) && frame.body.Arp? && Names(Recv(frame), owner, eth)
    ensures Arrives(i, Recv(frame), out, owner, eth)
  {
    var m, j := frame.body.arp, i.Learn(frame.body.arp, frame.src);
    if m.targetIp == i.ip && m.opcode == OPCODE_REQUEST {
      out := [Frame(j.eth, frame.src, Arp(ArpMessage(OPCODE_REPLY, j.eth, j.ip, frame.src, m.senderIp)))];
      CarriedToNone(out[0], eth);
    } else if m.targetIp == i.ip && m.opcode == OPCODE_REPLY {
      out := FlushArrives(j, m.senderIp, m.senderEth, eth);
    } else {
      out := [];
      assert i.framesOut + out == i.framesOut;
    }
  }

  lemma EventArrives(i: Interface, e: Event, owner: Option<u32>, eth: EthernetAddress) returns (out: seq<Frame>)
    requires Knows(i, owner, eth) && Names(e, owner, eth)
    ensures Arrives(i, e, out, owner, eth)
  {
    if e.Send? {
      out := SendArrives(i, e.dgram, e.hop, owner, eth);
    } else if e.Recv? && i.ForUs(e.frame) && e.frame.body.Arp? {
      out := AnswerArrives(i, e.frame, owner, eth);
    } else {
      out := [];
      assert i.framesOut + out == i.framesOut;
    }
  }

  // Runs

  lemma {:induction false} RunArrives(i: Interface, events: seq<Event>, owner: Option<u32>, eth: EthernetAddress)
    requires i.framesOut == [] && Knows(i, owner, eth) && Owns(events, owner, eth)
    ensures CarriedTo(Run(i, events).framesOut, eth) == if owner.Some? then SentTo(i, events, owner.value) else []
  {
    if events != [] {
      var m := |events| - 1;
      var before, e := Run(i, events[..m]), events[m];
      assert e in events;
      RunArrives(i, events[..m], owner, eth);
      RunKnows(i, events[..m], owner, eth);
      var out := EventArrives(before, e, owner, eth);
      EmittedIs(before, e, out);
      CarriedToAppend(before.framesOut, out, eth);
    }
  }

  /** Across the link: if an address belongs to one hop alone, the interface with that address hands up, of all that the
      other has sent, exactly the datagrams submitted for that hop, in order and each once, but for those still
      queued. */
  lemma LinkDelivers(eth: EthernetAddress, ip: u32, events: seq<Event>, j: Interface, hop: u32)
    requires Owns(events, Some(hop), j.eth)
    ensures var i := Run(NewInterface(eth, ip), events);
            Handed(j, i.framesOut) + i.Queue(hop) == Submitted(events, hop)
  {
    HandedIs(j, Run(NewInterface(eth, ip), events).framesOut);
    RunArrives(NewInterface(eth, ip), events, Some(hop), j.eth);
    Conservation(eth, ip, events, hop);
  }

  /** An interface whose address nobody has named gets nothing. */
  lemma NobodyElse(eth: EthernetAddress, ip: u32, events: seq<Event>, k: Interface)
    requires Owns(events, None, k.eth)
    ensures Handed(k, Run(NewInterface(eth, ip), events).framesOut) == []
  {
    HandedIs(k, Run(NewInterface(eth, ip), events).framesOut);
    RunArrives(NewInterface(eth, ip), events, None, k.eth);
  }
}
