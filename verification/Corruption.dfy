/** What the adapter lets through: exactly the segments of its connection whose checksum is right; and what a damaged
    segment does: nothing. */
module Corruption {
  import opened Machine
  import opened Segments
  import opened NetParser
  import opened InternetChecksum
  import opened TcpWire
  import opened Ipv4Wire
  import opened TcpOverIp
  import opened Layouts
  import opened Layouts4

  // The filter

  /** A TCP segment with the right checksum and a whole header, for our port; from our peer to us, or a SYN without RST
      if we are waiting for a peer. */
  predicate Taken(a: Adapter, d: Datagram)
  {
    var b := d.payload;
    && d.header.proto == 6 && SumChecks(b, d.header.PseudoChecksum())
    && |b| >= 20 && 4 * (b[12] / 16) <= |b| && U16At(b, 2) == a.source.port
    && if a.listening then HasBit(b[13], 2) && !HasBit(b[13], 4)
       else && d.header.dst == a.source.ip && d.header.src == a.destination.ip
            && U16At(b, 0) == a.destination.port
  }

  /** The adapter returns a segment exactly under that condition, and changes only if it was waiting for a peer. */
  lemma UnwrapIff(a: Adapter, d: Datagram)
    requires |d.payload| <= 0xffff
    ensures var b := d.payload;
            UnwrapTcpInIp(a, d) ==
              if Taken(a, d) then
                (Some(TcpSegment(HeaderAt(b), b[Max(20, 4 * (b[12] / 16))..])),
                 if a.listening
                 then Adapter(Endpoint(d.header.dst, a.source.port), Endpoint(d.header.src, U16At(b, 0)), false)
                 else a)
              else (None, a)
  {
    SegmentVerdict(d.payload, d.header.PseudoChecksum());
  }

  // Damage

  lemma {:induction false} ByteChanges(b: seq<byte>, i: nat, v: byte, odd: bool)
    requires i < |b|
    ensures WordSum(b[i := v], odd) + Weight(b[i], OddAfter(odd, i)) ==
            WordSum(b, odd) + Weight(v, OddAfter(odd, i))
  {
    if i == 0 {
      assert b[0 := v][1..] == b[1..];
    } else {
      ByteChanges(b[1..], i - 1, v, !odd);
      assert b[i := v][1..] == b[1..][i - 1 := v];
    }
  }

  /** A sum that checks, moved by less than a whole turn, does not. */
  lemma MovedSum(sum: nat, sum': nat, d: int)
    requires sum % 65535 == 0 && sum' == sum + d
    ensures sum' % 65535 == 0 <==> d % 65535 == 0
  {
    var q := sum / 65535;
    assert sum' == 65535 * q + d;
    if sum' % 65535 == 0 {
      var r := sum' / 65535;
      assert d == 65535 * (r - q);
      Multiple(r - q);
    }
    if d % 65535 == 0 {
      var e := d / 65535;
      assert sum' == 65535 * (q + e);
      Multiple(q + e);
    }
  }

  lemma Multiple(k: int)
    ensures 65535 * k % 65535 == 0
  {
  }

  /** What is serialized adds up to a multiple of 65535. */
  lemma SerializedChecks(seg: TcpSegment, pseudo: u32, b: seq<byte>)
    requires 5 <= seg.header.doff && 4 * seg.header.doff + |seg.payload| <= 0xffff && pseudo <= 0x10_0000
    requires b == SegmentBytes(seg, pseudo).value
    ensures |b| <= 0xffff && SumChecks(b, pseudo)
  {
    SegmentChecks(seg, pseudo);
    TestIsSum(b, pseudo);
  }

  /** What does not add up is refused, by the parser and by every adapter. */
  lemma BadSumRefused(b: seq<byte>, pseudo: u32)
    requires pseudo <= 0x10_0000 && |b| <= 0xffff && !SumChecks(b, pseudo)
    ensures ParseSegment(b, pseudo).1 == BadChecksum
  {
    TestIsSum(b, pseudo);
  }

  lemma BadSumDropped(a: Adapter, d: Datagram)
    requires |d.payload| <= 0xffff && !SumChecks(d.payload, d.header.PseudoChecksum())
    ensures UnwrapTcpInIp(a, d) == (None, a)
  {
    BadSumRefused(d.payload, d.header.PseudoChecksum());
  }

  lemma SmallMove(d: int)
    requires -65535 < d < 65535 && d != 0
    ensures d % 65535 != 0
  {
  }

  lemma ByteBreaksSum(b: seq<byte>, pseudo: nat, i: nat, v: byte)
    requires SumChecks(b, pseudo) && i < |b| && v != b[i]
    ensures !SumChecks(b[i := v], pseudo)
  {
    var d := Weight(v, OddAfter(false, i)) - Weight(b[i], OddAfter(false, i));
    ByteChanges(b, i, v, false);
    MovedSum(pseudo + WordSum(b, false), pseudo + WordSum(b[i := v], false), d);
    SmallMove(d);
  }

  /** A segment in which one byte has changed is refused. */
  lemma ByteDamaged(seg: TcpSegment, pseudo: u32, b: seq<byte>, i: nat, v: byte)
    requires 5 <= seg.header.doff && 4 * seg.header.doff + |seg.payload| <= 0xffff && pseudo <= 0x10_0000
    requires b == SegmentBytes(seg, pseudo).value && i < |b| && v != b[i]
    ensures !SumChecks(b[i := v], pseudo) && ParseSegment(b[i := v], pseudo).1 == BadChecksum
  {
    SerializedChecks(seg, pseudo, b);
    ByteBreaksSum(b, pseudo, i, v);
    BadSumRefused(b[i := v], pseudo);
  }

  /** So is one in which a 16-bit word has changed to one that differs modulo 65535, and only then: zero for 65535, or
      the other way round, goes unnoticed. */
  lemma WordDamaged(seg: TcpSegment, pseudo: u32, b: seq<byte>, i: nat, u: byte, v: byte)
    requires 5 <= seg.header.doff && 4 * seg.header.doff + |seg.payload| <= 0xffff && pseudo <= 0x10_0000
    requires b == SegmentBytes(seg, pseudo).value && i % 2 == 0 && i + 2 <= |b|
    requires pseudo + WordSum(b[i := u][i + 1 := v], false) > 0
    ensures ParseSegment(b[i := u][i + 1 := v], pseudo).1 == BadChecksum <==>
            (256 * (u as int) + v) % 65535 != U16At(b, i) % 65535
  {
    SerializedChecks(seg, pseudo, b);
    WordBreaksSum(b, pseudo, i, u, v);
    BadIff(b[i := u][i + 1 := v], pseudo);
  }

  lemma BadIff(b: seq<byte>, pseudo: u32)
    requires pseudo <= 0x10_0000 && |b| <= 0xffff
    ensures ParseSegment(b, pseudo).1 == BadChecksum <==> !SumChecks(b, pseudo)
  {
    SegmentVerdict(b, pseudo);
  }

  lemma WordBreaksSum(b: seq<byte>, pseudo: nat, i: nat, u: byte, v: byte)
    requires SumChecks(b, pseudo) && i % 2 == 0 && i + 2 <= |b|
    requires pseudo + WordSum(b[i := u][i + 1 := v], false) > 0
    ensures SumChecks(b[i := u][i + 1 := v], pseudo) <==>
            (256 * (u as int) + v) % 65535 == U16At(b, i) % 65535
  {
    var w := 256 * (u as int) + v;
    WordChanges(b, i, u, v);
    MovedSum(pseudo + WordSum(b, false), pseudo + WordSum(b[i := u][i + 1 := v], false), w - U16At(b, i));
    SameResidue(w, U16At(b, i));
  }

  lemma WordChanges(b: seq<byte>, i: nat, u: byte, v: byte)
    requires i % 2 == 0 && i + 2 <= |b|
    ensures WordSum(b[i := u][i + 1 := v], false) + U16At(b, i) == WordSum(b, false) + 256 * (u as int) + v
  {
    ByteChanges(b, i, u, false);
    ByteChanges(b[i := u], i + 1, v, false);
  }

  lemma SameResidue(x: u16, y: u16)
    ensures (x - y) % 65535 == 0 <==> x % 65535 == y % 65535
  {
  }

  /** And so is one that arrives under another pseudo-header, unless the two differ by a multiple of 65535. */
  lemma Misdelivered(seg: TcpSegment, pseudo: u32, pseudo': u32, b: seq<byte>)
    requires 5 <= seg.header.doff && 4 * seg.header.doff + |seg.payload| <= 0xffff
    requires pseudo <= 0x10_0000 && pseudo' <= 0x10_0000 && b == SegmentBytes(seg, pseudo).value
    requires (pseudo' - pseudo) % 65535 != 0
    ensures ParseSegment(b, pseudo').1 == BadChecksum
  {
    SerializedChecks(seg, pseudo, b);
    MovedSum(pseudo + WordSum(b, false), pseudo' + WordSum(b, false), pseudo' - pseudo);
    BadSumRefused(b, pseudo');
  }

  // On the wire

  lemma SameHeader(b: seq<byte>, b': seq<byte>)
    requires 20 <= |b| == |b'| && forall i :: 0 <= i < 20 ==> b[i] == b'[i]
    ensures Header4At(b) == Header4At(b') && Whole(b) == Whole(b')
  {
  }

  /** The first twenty bytes decide how a packet with a plain header is taken apart. */
  lemma PlainParts(b: seq<byte>, b': seq<byte>)
    requires 20 <= |b| == |b'| <= 0xffff && (forall i :: 0 <= i < 20 ==> b[i] == b'[i])
    requires Whole(b) && b[0] % 16 == 5
    ensures ParseDatagram(b').0 == Datagram(Header4At(b), b'[20..])
  {
    SameHeader(b, b');
    DatagramAcceptedIff(b');
  }

  lemma WireParts(a: Adapter, seg: TcpSegment, b: seq<byte>)
    requires Fits(seg) && b == DatagramBytes(WrapTcpInIp(a, seg).value).value
    ensures var d := WrapTcpInIp(a, seg).value;
            && 20 <= |b| <= 0xffff && Whole(b) && b[0] % 16 == 5 && b[20..] == d.payload
            && Header4At(b) == Checksummed4(d.header)
  {
    var d := WrapTcpInIp(a, seg).value;
    var g := Checksummed4(d.header);
    WireRoundTrip(a, seg);
    Ipv4Layout(g, Header4Bytes(g).value);
    assert b[..20] == Header4Bytes(g).value;
    assert forall i :: 0 <= i < 20 ==> b[i] == Header4Bytes(g).value[i];
    assert b[20..] == d.payload;
    DatagramAcceptedIff(b);
  }

  lemma DamagedParts(a: Adapter, seg: TcpSegment, bytes: seq<byte>, k: nat, v: byte) returns (d: Datagram)
    requires Fits(seg) && bytes == DatagramBytes(WrapTcpInIp(a, seg).value).value && 20 <= k < |bytes|
    ensures var w := WrapTcpInIp(a, seg).value;
            && d == Datagram(Checksummed4(w.header), w.payload[k - 20 := v]) == ParseDatagram(bytes[k := v]).0
            && w.payload[k - 20] == bytes[k]
  {
    var w := WrapTcpInIp(a, seg).value;
    WireParts(a, seg, bytes);
    PlainParts(bytes, bytes[k := v]);
    assert bytes[k := v][20..] == w.payload[k - 20 := v];
    d := Datagram(Checksummed4(w.header), w.payload[k - 20 := v]);
  }

  /** End to end: if one byte of a segment changes on the wire, no adapter returns anything, and none changes. */
  lemma DamageIsDropped(a: Adapter, b: Adapter, seg: TcpSegment, bytes: seq<byte>, k: nat, v: byte)
    requires Fits(seg) && bytes == DatagramBytes(WrapTcpInIp(a, seg).value).value
    requires 20 <= k < |bytes| && v != bytes[k]
    ensures UnwrapTcpInIp(b, ParseDatagram(bytes[k := v]).0) == (None, b)
  {
    var d := DamagedParts(a, seg, bytes, k, v);
    PayloadDamaged(a, seg, k - 20, v);
    BadSumDropped(b, d);
  }

  lemma PayloadDamaged(a: Adapter, seg: TcpSegment, i: nat, v: byte)
    requires Fits(seg) && var p := WrapTcpInIp(a, seg).value.payload; i < |p| && v != p[i]
    ensures var d := WrapTcpInIp(a, seg).value;
            && |d.payload| <= 0xffff
            && !SumChecks(d.payload[i := v], Checksummed4(d.header).PseudoChecksum())
  {
    ParsesBack(a, seg);
    ByteDamaged(Addressed(a, seg), IpHeader(a, seg).PseudoChecksum(), WrapTcpInIp(a, seg).value.payload, i, v);
  }


  /** What goes over the wire, byte by byte: version 4, a header of five words, the length of the packet, no fragments,
      time to live 128, protocol 6, the two addresses; then the segment with the two ports. */
  lemma SentBytes(a: Adapter, seg: TcpSegment, b: seq<byte>)
    requires Fits(seg) && b == DatagramBytes(WrapTcpInIp(a, seg).value).value
    ensures 40 <= |b| == 20 + 4 * seg.header.doff + |seg.payload|
    ensures b[0] == 0x45 && b[1] == 0 && U16At(b, 2) == |b| && U16At(b, 4) == 0 && U16At(b, 6) == 0x4000
    ensures b[8] == 128 && b[9] == 6 && U32At(b, 12) == a.source.ip && U32At(b, 16) == a.destination.ip
    ensures U16At(b, 20) == a.source.port && U16At(b, 22) == a.destination.port
    ensures b[20 + 4 * seg.header.doff..] == seg.payload
  {
    SentHeader(a, seg, b);
    SentSegment(a, seg, b[20..]);
    assert b[20..][0] == b[20] && b[20..][1] == b[21] && b[20..][2] == b[22] && b[20..][3] == b[23];
    assert b[20 + 4 * seg.header.doff..] == b[20..][4 * seg.header.doff..];
  }

  lemma SentSegment(a: Adapter, seg: TcpSegment, p: seq<byte>)
    requires Fits(seg) && p == WrapTcpInIp(a, seg).value.payload
    ensures |p| == 4 * seg.header.doff + |seg.payload| && p[4 * seg.header.doff..] == seg.payload
    ensures U16At(p, 0) == a.source.port && U16At(p, 2) == a.destination.port
  {
    var h := Checksummed(Addressed(a, seg), IpHeader(a, seg).PseudoChecksum());
    var head := HeaderBytes(h).value;
    TcpLayout(h, head);
    assert p == head + seg.payload;
    assert p[0] == head[0] && p[1] == head[1] && p[2] == head[2] && p[3] == head[3];
  }

  lemma SentHeader(a: Adapter, seg: TcpSegment, b: seq<byte>)
    requires Fits(seg) && b == DatagramBytes(WrapTcpInIp(a, seg).value).value
    ensures |b| == 20 + 4 * seg.header.doff + |seg.payload| && b[20..] == WrapTcpInIp(a, seg).value.payload
    ensures b[0] == 0x45 && b[1] == 0 && U16At(b, 2) == |b| && U16At(b, 4) == 0 && U16At(b, 6) == 0x4000
    ensures b[8] == 128 && b[9] == 6 && U32At(b, 12) == a.source.ip && U32At(b, 16) == a.destination.ip
  {
    var d := WrapTcpInIp(a, seg).value;
    var g := Checksummed4(d.header);
    WireParts(a, seg, b);
    Ipv4Layout(g, Header4Bytes(g).value);
    assert forall i :: 0 <= i < 20 ==> b[i] == Header4Bytes(g).value[i];
  }
}
