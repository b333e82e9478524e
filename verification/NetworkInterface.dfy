/** The link between IP and Ethernet: datagrams wait in a queue per next hop until the Address Resolution
    Protocol (RFC 826) has found its Ethernet address, and learned addresses age. */
module NetworkInterface {
  import opened Machine
  import opened Ipv4Wire

  type EthernetAddress = x: int | 0 <= x < 0x1_0000_0000_0000

  const ETHERNET_BROADCAST: EthernetAddress := 0xffff_ffff_ffff
  const OPCODE_REQUEST: u16 := 1
  const OPCODE_REPLY: u16 := 2
  const REQUEST_INTERVAL: nat := 5000
  const MAPPING_LIFETIME: nat := 30000

  datatype ArpMessage = ArpMessage(
    opcode: u16, senderEth: EthernetAddress, senderIp: u32, targetEth: EthernetAddress, targetIp: u32)

  /** What a frame carries, by its type field; a payload that does not parse is malformed. */
  datatype Body = Ip(dgram: Datagram) | Arp(arp: ArpMessage) | Malformed

  datatype Frame = Frame(src: EthernetAddress, dst: EthernetAddress, body: Body)

  datatype Interface = Interface(
    eth: EthernetAddress, ip: u32,
    ipToEth: map<u32, EthernetAddress>, timeouts: map<u32, nat>, queues: map<u32, seq<Datagram>>,
    framesOut: seq<Frame>, time: nat)
  {
    function Queue(hop: u32): seq<Datagram>
    {
      if hop in queues then queues[hop] else []
    }

    /** Sends what is queued for a hop, up to the first datagram that cannot be serialized: there the source
        throws, with that datagram still at the front of the queue. */
    function Flush(hop: u32, address: EthernetAddress): Interface
    {
      var q := Queue(hop);
      this.(framesOut := framesOut + IpFrames(eth, address, q[..Ready(q)]), queues := queues[hop := q[Ready(q)..]])
    }

    function Enqueue(dgram: Datagram, hop: u32): Interface
    {
      this.(queues := queues[hop := Queue(hop) + [dgram]])
    }

    function Request(hop: u32): Frame
    {
      Frame(eth, ETHERNET_BROADCAST, Arp(ArpMessage(OPCODE_REQUEST, eth, ip, 0, hop)))
    }

    /** Asks for the address of a hop, unless it was asked for not long ago. */
    function Ask(hop: u32): Interface
    {
      if hop in timeouts && time - timeouts[hop] <= REQUEST_INTERVAL then this else
      this.(framesOut := framesOut + [Request(hop)],
            timeouts := if hop in timeouts then timeouts else timeouts[hop := time])
    }

    function SendDatagram(dgram: Datagram, hop: u32): Interface
    {
      if hop in ipToEth then Enqueue(dgram, hop).Flush(hop, ipToEth[hop])
      else Enqueue(dgram, hop).Ask(hop)
    }

    /** Learns the sender of an ARP message, unless a mapping for it is there; the age of an address starts
        with the first request for it. */
    function Learn(m: ArpMessage, src: EthernetAddress): Interface
    {
      if m.senderIp in ipToEth then this else
      this.(ipToEth := ipToEth[m.senderIp := src],
            timeouts := if m.senderIp in timeouts then timeouts else timeouts[m.senderIp := time])
    }

    function Answer(m: ArpMessage, src: EthernetAddress): Interface
    {
      if m.targetIp == ip && m.opcode == OPCODE_REQUEST then
        this.(framesOut := framesOut + [Frame(eth, src, Arp(ArpMessage(OPCODE_REPLY, eth, ip, src, m.senderIp)))])
      else if m.targetIp == ip && m.opcode == OPCODE_REPLY then
        Flush(m.senderIp, m.senderEth)
      else this
    }

    predicate ForUs(frame: Frame) { frame.dst == ETHERNET_BROADCAST || frame.dst == eth }

    function RecvFrame(frame: Frame): (Interface, Option<Datagram>)
    {
      if !ForUs(frame) then (this, None) else
      match frame.body
      case Ip(dgram) => (this, Some(dgram))
      case Arp(m) => (Learn(m, frame.src).Answer(m, frame.src), None)
      case Malformed => (this, None)
    }

    /** Whether the frame makes the interface send what is queued for the sender of an ARP message. */
    predicate Releases(frame: Frame)
    {
      ForUs(frame) && frame.body.Arp? && frame.body.arp.targetIp == ip && frame.body.arp.opcode == OPCODE_REPLY
    }

    predicate Expired(hop: u32, now: nat)
    {
      hop in timeouts && now - timeouts[hop] > MAPPING_LIFETIME
    }

    function Tick(ms: nat): Interface
    {
      var expired := set hop | hop in timeouts && Expired(hop, time + ms);
      this.(time := time + ms, ipToEth := ipToEth - expired, timeouts := timeouts - expired)
    }
  }

  function NewInterface(eth: EthernetAddress, ip: u32): Interface
  {
    Interface(eth, ip, map[], map[], map[], [], 0)
  }

  /** The number of datagrams before the first one that cannot be serialized. */
  function Ready(q: seq<Datagram>): (n: nat)
    ensures n <= |q|
    ensures forall i :: 0 <= i < n ==> Prints(q[i])
    ensures n < |q| ==> !Prints(q[n])
  {
    if q == [] || !Prints(q[0]) then 0 else 1 + Ready(q[1..])
  }

  predicate Prints(d: Datagram) { DatagramBytes(d).Some? }

  function IpFrames(src: EthernetAddress, dst: EthernetAddress, dgrams: seq<Datagram>): (f: seq<Frame>)
    ensures |f| == |dgrams|
    ensures forall k :: 0 <= k < |f| ==> f[k] == Frame(src, dst, Ip(dgrams[k]))
  {
    if dgrams == [] then [] else [Frame(src, dst, Ip(dgrams[0]))] + IpFrames(src, dst, dgrams[1..])
  }

  lemma SliceStep(q: seq<Datagram>, n: nat)
    requires n < |q|
    ensures q[..n + 1] == [q[0]] + q[1..][..n] && q[n + 1..] == q[1..][n..]
  {
  }

  lemma ReadyStep(q: seq<Datagram>)
    requires q != [] && Prints(q[0])
    ensures Ready(q) == 1 + Ready(q[1..])
    ensures q[..Ready(q)] == [q[0]] + q[1..][..Ready(q[1..])] && q[Ready(q)..] == q[1..][Ready(q[1..])..]
  {
    SliceStep(q, Ready(q[1..]));
  }

  lemma FramesStep(frames: seq<Frame>, src: EthernetAddress, dst: EthernetAddress, dgram: Datagram, q: seq<Datagram>)
    ensures frames + IpFrames(src, dst, [dgram] + q) == frames + [Frame(src, dst, Ip(dgram))] + IpFrames(src, dst, q)
  {
    assert ([dgram] + q)[1..] == q;
  }

  lemma FlushStep(i: Interface, hop: u32, address: EthernetAddress, q: seq<Datagram>)
    requires q == i.Queue(hop) && q != [] && Prints(q[0])
    ensures i.(queues := i.queues[hop := q[1..]], framesOut := i.framesOut + [Frame(i.eth, address, Ip(q[0]))])
            .Flush(hop, address) == i.Flush(hop, address)
  {
    ReadyStep(q);
    FramesStep(i.framesOut, i.eth, address, q[0], q[1..][..Ready(q[1..])]);
    assert i.queues[hop := q[1..]][hop := q[Ready(q)..]] == i.queues[hop := q[Ready(q)..]];
  }

  lemma FlushNone(i: Interface, hop: u32, address: EthernetAddress)
    requires hop in i.queues && Ready(i.queues[hop]) == 0
    ensures i.Flush(hop, address) == i
  {
    var q := i.queues[hop];
    assert q[0..] == q && q[..0] == [];
    assert i.queues[hop := q] == i.queues;
    assert i.framesOut + [] == i.framesOut;
  }

  class NetworkInterface {
    const eth: EthernetAddress
    const ip: u32
    var ipToEth: map<u32, EthernetAddress>
    var timeouts: map<u32, nat>
    var queues: map<u32, seq<Datagram>>
    var framesOut: seq<Frame>
    var time: nat

    ghost function View(): Interface
      reads this
    {
      Interface(eth, ip, ipToEth, timeouts, queues, framesOut, time)
    }

    constructor (eth: EthernetAddress, ip: u32)
      ensures View() == NewInterface(eth, ip)
    {
      this.eth, this.ip := eth, ip;
      ipToEth, timeouts, queues, framesOut, time := map[], map[], map[], [], 0;
    }

    /** `threw` where the source throws because the datagram at the front cannot be serialized. */
    method FlushBuffer(hop: u32, address: EthernetAddress) returns (threw: bool)
      modifies this
      ensures View() == old(View()).Flush(hop, address)
      ensures threw <==> View().Queue(hop) != []
    {
      ghost var i := View();
      if hop !in queues {
        queues := queues[hop := []];
      }
      while queues[hop] != []
        invariant hop in queues
        invariant View().Flush(hop, address) == i.Flush(hop, address)
        decreases |queues[hop]|
      {
        if !Prints(queues[hop][0]) {
          FlushNone(View(), hop, address);
          return true;
        }
        SendFront(hop, address);
      }
      FlushNone(View(), hop, address);
      return false;
    }

    method SendFront(hop: u32, address: EthernetAddress)
      requires hop in queues && queues[hop] != [] && Prints(queues[hop][0])
      modifies this`queues, this`framesOut
      ensures View().Flush(hop, address) == old(View()).Flush(hop, address)
      ensures hop in queues && queues[hop] == old(queues[hop][1..])
    {
      FlushStep(View(), hop, address, queues[hop]);
      var dgram := queues[hop][0];
      queues := queues[hop := queues[hop][1..]];
      framesOut := framesOut + [Frame(eth, address, Ip(dgram))];
    }

    method SendDatagram(dgram: Datagram, hop: u32) returns (threw: bool)
      modifies this
      ensures View() == old(View()).SendDatagram(dgram, hop)
      ensures threw <==> hop in View().ipToEth && View().Queue(hop) != []
    {
      threw := false;
      Push(dgram, hop);
      if hop in ipToEth {
        threw := FlushBuffer(hop, ipToEth[hop]);
      } else {
        AskFor(hop);
      }
    }

    method Push(dgram: Datagram, hop: u32)
      modifies this`queues
      ensures View() == old(View()).Enqueue(dgram, hop)
    {
      if hop !in queues {
        queues := queues[hop := []];
      }
      queues := queues[hop := queues[hop] + [dgram]];
    }

    method AskFor(hop: u32)
      modifies this`framesOut, this`timeouts
      ensures View() == old(View()).Ask(hop)
    {
      if hop !in timeouts || time - timeouts[hop] > REQUEST_INTERVAL {
        framesOut := framesOut + [Frame(eth, ETHERNET_BROADCAST, Arp(ArpMessage(OPCODE_REQUEST, eth, ip, 0, hop)))];
        if hop !in timeouts {
          timeouts := timeouts[hop := time];
        }
      }
    }

    method RecvFrame(frame: Frame) returns (r: Option<Datagram>, threw: bool)
      modifies this
      ensures (View(), r) == old(View()).RecvFrame(frame)
      ensures threw <==> View().Releases(frame) && View().Queue(frame.body.arp.senderIp) != []
    {
      threw := false;
      if frame.dst != ETHERNET_BROADCAST && frame.dst != eth {
        return None, false;
      }
      match frame.body
      case Ip(dgram) =>
        return Some(dgram), false;
      case Arp(m) =>
        LearnFrom(m, frame.src);
        if m.targetIp == ip && m.opcode == OPCODE_REQUEST {
          var reply := ArpMessage(OPCODE_REPLY, eth, ip, frame.src, m.senderIp);
          framesOut := framesOut + [Frame(eth, frame.src, Arp(reply))];
        } else if m.targetIp == ip && m.opcode == OPCODE_REPLY {
          threw := FlushBuffer(m.senderIp, m.senderEth);
        }
        return None, threw;
      case Malformed =>
        return None, false;
    }

    method LearnFrom(m: ArpMessage, src: EthernetAddress)
      modifies this
      ensures View() == old(View()).Learn(m, src)
    {
      if m.senderIp !in ipToEth {
        ipToEth := ipToEth[m.senderIp := src];
        if m.senderIp !in timeouts {
          timeouts := timeouts[m.senderIp := time];
        }
      }
    }

    method Tick(ms: nat)
      modifies this
      ensures View() == old(View()).Tick(ms)
    {
      time := time + ms;
      var q := EraseMappings();
      EraseTimeouts(q);
    }

    /** Erases the mappings whose entry in the timeout table has expired. */
    method EraseMappings() returns (q: set<u32>)
      modifies this`ipToEth
      ensures q == set hop | hop in timeouts && View().Expired(hop, time)
      ensures ipToEth == old(ipToEth) - q
    {
      q := {};
      var left := timeouts.Keys;
      while left != {}
        invariant left <= timeouts.Keys
        invariant q == set hop | hop in timeouts && hop !in left && View().Expired(hop, time)
        invariant ipToEth == old(ipToEth) - q
        decreases left
      {
        var hop :| hop in left;
        left := left - {hop};
        if time - timeouts[hop] > MAPPING_LIFETIME {
          ipToEth := ipToEth - {hop};
          q := q + {hop};
        }
      }
    }

    method EraseTimeouts(q: set<u32>)
      modifies this`timeouts
      ensures timeouts == old(timeouts) - q
    {
      var left := q;
      while left != {}
        invariant left <= q && timeouts == old(timeouts) - (q - left)
        decreases left
      {
        var hop :| hop in left;
        timeouts := timeouts - {hop};
        left := left - {hop};
      }
      assert q - left == q;
    }
  }
}
