/** The adapter between TCP segments and IPv4 datagrams. */
module TcpOverIp {
  import opened Machine
  import opened Segments
  import opened NetParser
  import opened TcpWire
  import opened Ipv4Wire

  datatype Endpoint = Endpoint(ip: u32, port: u16)

  /** Our address, the peer's, and whether we are still waiting for a peer. */
  datatype Adapter = Adapter(source: Endpoint, destination: Endpoint, listening: bool)

  /** The segment with the ports of the adapter. */
  function Addressed(a: Adapter, seg: TcpSegment): TcpSegment
  {
    seg.(header := seg.header.(sport := a.source.port, dport := a.destination.port))
  }

  function IpHeader(a: Adapter, seg: TcpSegment): Ipv4Header
  {
    DEFAULT_IPV4_HEADER.(src := a.source.ip, dst := a.destination.ip,
                         len := Trunc16(4 * DEFAULT_IPV4_HEADER.hlen + 4 * seg.header.doff + |seg.payload|))
  }

  /** The datagram that carries a segment, or nothing where serializing the segment throws. */
  function WrapTcpInIp(a: Adapter, seg: TcpSegment): Option<Datagram>
  {
    var h := IpHeader(a, seg);
    var bytes := SegmentBytes(Addressed(a, seg), h.PseudoChecksum());
    if bytes.None? then None else Some(Datagram(h, bytes.value))
  }

  /** The adapter after it has taken the sender of a datagram for its peer. */
  function Learned(a: Adapter, d: Datagram, seg: TcpSegment): Adapter
  {
    Adapter(Endpoint(d.header.dst, a.source.port), Endpoint(d.header.src, seg.header.sport), false)
  }

  /** The segment in a datagram, if it is valid and for this connection; a listening adapter learns its peer
      from a SYN. */
  function UnwrapTcpInIp(a: Adapter, d: Datagram): (Option<TcpSegment>, Adapter)
  {
    if !a.listening && d.header.dst != a.source.ip then (None, a)
    else if !a.listening && d.header.src != a.destination.ip then (None, a)
    else if d.header.proto != PROTO_TCP then (None, a)
    else
      var (seg, r) := ParseSegment(d.payload, d.header.PseudoChecksum());
      if r != NoError then (None, a)
      else if seg.header.dport != a.source.port then (None, a)
      else if a.listening && !(seg.header.syn && !seg.header.rst) then (None, a)
      else
        var b := if a.listening then Learned(a, d, seg) else a;
        if seg.header.sport != b.destination.port then (None, b) else (Some(seg), b)
  }

  /** The segment as it arrives: with the ports and the checksum filled in. */
  function Arrived(a: Adapter, seg: TcpSegment): TcpSegment
    requires seg.header.doff >= 5
  {
    Addressed(a, seg).(header := Checksummed(Addressed(a, seg), IpHeader(a, seg).PseudoChecksum()))
  }

  predicate Fits(seg: TcpSegment)
  {
    5 <= seg.header.doff <= 15 && 20 + 4 * seg.header.doff + |seg.payload| <= 0xffff
  }

  /** Across the wire: wrapping, serializing and parsing give back the datagram, with its checksum. */
  lemma WireRoundTrip(a: Adapter, seg: TcpSegment)
    requires Fits(seg)
    ensures var d := WrapTcpInIp(a, seg);
            && d.Some? && DatagramBytes(d.value).Some?
            && ParseDatagram(DatagramBytes(d.value).value) ==
                 (d.value.(header := Checksummed4(d.value.header)), NoError)
  {
    DatagramRoundTrip(WrapTcpInIp(a, seg).value);
  }

  /** What the segment parser returns on the other side. */
  lemma ParsesBack(a: Adapter, seg: TcpSegment)
    requires Fits(seg)
    ensures var d := WrapTcpInIp(a, seg).value;
            var h := Checksummed4(d.header);
            && h.PseudoChecksum() == d.header.PseudoChecksum()
            && ParseSegment(d.payload, h.PseudoChecksum()) == (Arrived(a, seg), NoError)
  {
    SegmentRoundTrip(Addressed(a, seg), IpHeader(a, seg).PseudoChecksum());
  }

  /** The wire round trip: between mirrored endpoints every segment comes back as it was sent, with ports and
      checksum filled in. */
  lemma SegmentCrosses(a: Adapter, b: Adapter, seg: TcpSegment)
    requires Fits(seg) && !b.listening && b.source == a.destination && b.destination == a.source
    ensures var bytes := DatagramBytes(WrapTcpInIp(a, seg).value).value;
            UnwrapTcpInIp(b, ParseDatagram(bytes).0) == (Some(Arrived(a, seg)), b)
  {
    WireRoundTrip(a, seg);
    ParsesBack(a, seg);
  }

  /** A listening endpoint takes exactly a SYN without RST on its port, and then mirrors the sender. */
  lemma ListenerLearns(a: Adapter, b: Adapter, seg: TcpSegment)
    requires Fits(seg) && b.listening && b.source.port == a.destination.port
    ensures var bytes := DatagramBytes(WrapTcpInIp(a, seg).value).value;
            UnwrapTcpInIp(b, ParseDatagram(bytes).0) ==
            if seg.header.syn && !seg.header.rst
            then (Some(Arrived(a, seg)), Adapter(a.destination, a.source, false)) else (None, b)
  {
    WireRoundTrip(a, seg);
    ParsesBack(a, seg);
  }

  class TcpOverIpv4Adapter {
    var config: Adapter

    constructor (config: Adapter)
      ensures this.config == config
    {
      this.config := config;
    }

    method Wrap(seg: TcpSegment) returns (sent: TcpSegment, d: Option<Datagram>)
      ensures sent == Addressed(config, seg) && d == WrapTcpInIp(config, seg)
    {
      sent := seg.(header := seg.header.(sport := config.source.port, dport := config.destination.port));
      var h := DEFAULT_IPV4_HEADER.(src := config.source.ip, dst := config.destination.ip);
      h := h.(len := Trunc16(4 * h.hlen + 4 * sent.header.doff + |sent.payload|));
      var payload := SerializeSegment(sent, h.PseudoChecksum());
      d := if payload.None? then None else Some(Datagram(h, payload.value));
    }

    method Unwrap(d: Datagram) returns (r: Option<TcpSegment>)
      modifies this
      ensures (r, config) == UnwrapTcpInIp(old(config), d)
    {
      if !config.listening && d.header.dst != config.source.ip {
        return None;
      }
      if !config.listening && d.header.src != config.destination.ip {
        return None;
      }
      if d.header.proto != PROTO_TCP {
        return None;
      }
      var seg, result := ParseSegmentFrom(d.payload, d.header.PseudoChecksum());
      if result != NoError {
        return None;
      }
      if seg.header.dport != config.source.port {
        return None;
      }
      if config.listening {
        if seg.header.syn && !seg.header.rst {
          var here, there := Endpoint(d.header.dst, config.source.port), Endpoint(d.header.src, seg.header.sport);
          config := Adapter(here, there, false);
        } else {
          return None;
        }
      }
      if seg.header.sport != config.destination.port {
        return None;
      }
      return Some(seg);
    }
  }
}
