/** IPv4 headers and datagrams as bytes (section 3.1 of RFC 791). */
module Ipv4Wire {
  import opened Machine
  import opened NetParser
  import opened InternetChecksum
  import opened TcpWire

  const LENGTH: nat := 20
  const PROTO_TCP: byte := 6

  datatype Ipv4Header = Ipv4Header(
    ver: byte, hlen: byte, tos: byte, len: u16, id: u16, df: bool, mf: bool, offset: u16,
    ttl: byte, proto: byte, cksum: u16, src: u32, dst: u32)
  {
    function PayloadLength(): u16 { Trunc16(len - 4 * hlen) }

    /** What the pseudo-header of section 3.1 of RFC 793 adds to the checksum of a segment. */
    function PseudoChecksum(): (c: u32)
      ensures c <= 0x6_0000
    {
      Halves(src) + Halves(dst) + proto + PayloadLength()
    }
  }

  const DEFAULT_IPV4_HEADER: Ipv4Header := Ipv4Header(4, 5, 0, 0, 0, true, false, 0, 128, PROTO_TCP, 0, 0, 0)

  /** The sum of the two 16-bit halves of an address. */
  function Halves(x: u32): (n: nat)
    ensures n <= 0x1_fffe
  {
    x / 0x1_0000 + x % 0x1_0000
  }

  datatype Datagram = Datagram(header: Ipv4Header, payload: seq<byte>)

  /** The byte with the version and the header length. */
  function FirstByte(h: Ipv4Header): nat { (h.ver as int) * 16 % 256 + h.hlen % 16 }

  /** The field with the two flags and the fragment offset. */
  function Fragment(h: Ipv4Header): (f: nat)
    ensures f < 0x8000
  {
    Bit(h.df, 0x4000) + Bit(h.mf, 0x2000) + h.offset % 0x2000
  }

  function Front4(h: Ipv4Header, x: seq<byte>): seq<byte>
  {
    Bytes(FirstByte(h), 1) + (Bytes(h.tos, 1) + (Bytes(h.len, 2) + (Bytes(h.id, 2) + (Bytes(Fragment(h), 2) + x))))
  }

  /** What comes before the checksum. */
  function Head4(h: Ipv4Header): (b: seq<byte>)
    ensures |b| == 10
  {
    Front4(h, Bytes(h.ttl, 1) + Bytes(h.proto, 1))
  }

  /** What follows it: the addresses, and zeros up to the advertised length. */
  function Tail4(h: Ipv4Header): seq<byte>
    requires h.hlen >= 5
  {
    Bytes(h.src, 4) + (Bytes(h.dst, 4) + Zeros(4 * h.hlen - LENGTH))
  }

  /** The header as bytes, or nothing where the source throws. */
  function Header4Bytes(h: Ipv4Header): (r: Option<seq<byte>>)
    ensures r.Some? <==> h.ver == 4 && h.hlen >= 5
    ensures r.Some? ==> |r.value| == 4 * h.hlen
  {
    if h.ver != 4 || 4 * h.hlen < LENGTH then None else Some(Head4(h) + (Bytes(h.cksum, 2) + Tail4(h)))
  }

  datatype First = First(first: byte, tos: byte, len: u16, id: u16, fragment: u16, rest: Parser)
  datatype Second = Second(ttl: byte, proto: byte, cksum: u16, src: u32, dst: u32, rest: Parser)

  function ParseFirst(p: Parser): First
  {
    var (first, p1) := p.Int(1);
    var (tos, p2) := p1.Int(1);
    var (len, p3) := p2.Int(2);
    var (id, p4) := p3.Int(2);
    var (fragment, p5) := p4.Int(2);
    First(first, tos, len, id, fragment, p5)
  }

  function ParseSecond(p: Parser): Second
  {
    var (ttl, p1) := p.Int(1);
    var (proto, p2) := p1.Int(1);
    var (cksum, p3) := p2.Int(2);
    var (src, p4) := p3.Int(4);
    var (dst, p5) := p4.Int(4);
    Second(ttl, proto, cksum, src, dst, p5)
  }

  function Fields(f: First, s: Second): Ipv4Header
  {
    Ipv4Header(f.first / 16, f.first % 16, f.tos, f.len, f.id,
               f.fragment / 0x4000 % 2 == 1, f.fragment / 0x2000 % 2 == 1, f.fragment % 0x2000,
               s.ttl, s.proto, s.cksum, s.src, s.dst)
  }

  /** The checks made on the fields of a header, `original` being the whole packet. */
  function CheckHeader(h: Ipv4Header, p: Parser, original: seq<byte>): (Parser, ParseResult)
  {
    if |original| < 4 * h.hlen then (p, PacketTooShort)
    else if h.ver != 4 then (p, WrongIPVersion)
    else if h.hlen < 5 then (p, HeaderTooShort)
    else if |original| != h.len then (p, TruncatedPacket)
    else
      var q := p.RemovePrefix(4 * h.hlen - LENGTH);
      if q.error != NoError then (q, q.error)
      else if Complement(Trunc32(WordSum(original[..4 * h.hlen], false))) != 0 then (q, BadChecksum)
      else (q, NoError)
  }

  function ParseHeader4(p: Parser): (Ipv4Header, Parser, ParseResult)
  {
    if |p.buffer| < LENGTH then (DEFAULT_IPV4_HEADER, p, PacketTooShort) else
    var f := ParseFirst(p);
    var s := ParseSecond(f.rest);
    var h := Fields(f, s);
    var (q, r) := CheckHeader(h, s.rest, p.buffer);
    (h, q, r)
  }

  /** The result of the header parser is not looked at. */
  function ParseDatagram(bytes: seq<byte>): (Datagram, ParseResult)
  {
    var (h, p, _) := ParseHeader4(Parser(bytes, NoError));
    (Datagram(h, p.buffer), if |p.buffer| != h.PayloadLength() then PacketTooShort else p.error)
  }

  function Checksummed4(h: Ipv4Header): Ipv4Header
    requires h.ver == 4 && h.hlen >= 5
  {
    h.(cksum := Complement(Trunc32(WordSum(Header4Bytes(h.(cksum := 0)).value, false))))
  }

  /** The datagram as bytes, or nothing where the source throws. */
  function DatagramBytes(d: Datagram): Option<seq<byte>>
  {
    if |d.payload| != d.header.PayloadLength() || d.header.ver != 4 || d.header.hlen < 5 then None
    else Some(Header4Bytes(Checksummed4(d.header)).value + d.payload)
  }

  // Round trip

  lemma FirstRoundTrip(h: Ipv4Header, rest: seq<byte>)
    requires h.ver == 4
    ensures ParseFirst(Parser(Front4(h, rest), NoError)) ==
            First(FirstByte(h), h.tos, h.len, h.id, Fragment(h), Parser(rest, NoError))
  {
    var r5 := Bytes(Fragment(h), 2) + rest;
    var r4 := Bytes(h.id, 2) + r5;
    var r3 := Bytes(h.len, 2) + r4;
    var r2 := Bytes(h.tos, 1) + r3;
    IntOfBytes(FirstByte(h), 1, r2);
    IntOfBytes(h.tos, 1, r3);
    IntOfBytes(h.len, 2, r4);
    IntOfBytes(h.id, 2, r5);
    IntOfBytes(Fragment(h), 2, rest);
  }

  function Back4(h: Ipv4Header, x: seq<byte>): seq<byte>
  {
    Bytes(h.ttl, 1) + (Bytes(h.proto, 1) + (Bytes(h.cksum, 2) + (Bytes(h.src, 4) + (Bytes(h.dst, 4) + x))))
  }

  lemma SecondRoundTrip(h: Ipv4Header, rest: seq<byte>)
    ensures ParseSecond(Parser(Back4(h, rest), NoError)) ==
            Second(h.ttl, h.proto, h.cksum, h.src, h.dst, Parser(rest, NoError))
  {
    var r5 := Bytes(h.dst, 4) + rest;
    var r4 := Bytes(h.src, 4) + r5;
    var r3 := Bytes(h.cksum, 2) + r4;
    var r2 := Bytes(h.proto, 1) + r3;
    IntOfBytes(h.ttl, 1, r2);
    IntOfBytes(h.proto, 1, r3);
    IntOfBytes(h.cksum, 2, r4);
    IntOfBytes(h.src, 4, r5);
    IntOfBytes(h.dst, 4, rest);
  }

  lemma FieldsRoundTrip(h: Ipv4Header, p: Parser, q: Parser)
    requires h.ver == 4 && h.hlen <= 15 && h.offset < 0x2000
    ensures Fields(First(FirstByte(h), h.tos, h.len, h.id, Fragment(h), p),
                   Second(h.ttl, h.proto, h.cksum, h.src, h.dst, q)) == h
  {
  }

  lemma Front4Then(h: Ipv4Header, x: seq<byte>, y: seq<byte>)
    ensures Front4(h, x) + y == Front4(h, x + y)
  {
    var b5 := Bytes(Fragment(h), 2) + x;
    var b4 := Bytes(h.id, 2) + b5;
    var b3 := Bytes(h.len, 2) + b4;
    var b2 := Bytes(h.tos, 1) + b3;
    Assoc(Bytes(FirstByte(h), 1), b2, y);
    Assoc(Bytes(h.tos, 1), b3, y);
    Assoc(Bytes(h.len, 2), b4, y);
    Assoc(Bytes(h.id, 2), b5, y);
    Assoc(Bytes(Fragment(h), 2), x, y);
  }

  /** The whole header and what follows it, field by field. */
  lemma Header4Layout(h: Ipv4Header, rest: seq<byte>)
    requires h.ver == 4 && h.hlen >= 5
    ensures Header4Bytes(h).value + rest == Front4(h, Back4(h, Zeros(4 * h.hlen - LENGTH) + rest))
  {
    var zeros := Zeros(4 * h.hlen - LENGTH);
    var x := Bytes(h.cksum, 2) + (Bytes(h.src, 4) + (Bytes(h.dst, 4) + (zeros + rest)));
    Assoc(Head4(h), Bytes(h.cksum, 2) + Tail4(h), rest);
    Assoc(Bytes(h.cksum, 2), Tail4(h), rest);
    Assoc(Bytes(h.src, 4), Bytes(h.dst, 4) + zeros, rest);
    Assoc(Bytes(h.dst, 4), zeros, rest);
    Front4Then(h, Bytes(h.ttl, 1) + Bytes(h.proto, 1), x);
    Assoc(Bytes(h.ttl, 1), Bytes(h.proto, 1), x);
  }

  /** A serialized header passes the checksum test. */
  lemma Header4Checks(h: Ipv4Header)
    requires h.ver == 4 && 5 <= h.hlen <= 15
    ensures Complement(Trunc32(WordSum(Header4Bytes(Checksummed4(h)).value, false))) == 0
  {
    var g, zero := Checksummed4(h), h.(cksum := 0);
    var z := Header4Bytes(zero).value;
    assert Head4(g) == Head4(zero) && Tail4(g) == Tail4(zero);
    ChecksumField(Head4(zero), g.cksum, Tail4(zero), []);
    ChecksumField(Head4(zero), 0, Tail4(zero), []);
    assert z + [] == z && Header4Bytes(g).value + [] == Header4Bytes(g).value;
    WordSumBound(z);
    WordSumBound(Header4Bytes(g).value);
    ChecksumChecks(WordSum(z, false));
  }

  lemma CheckPasses(h: Ipv4Header, payload: seq<byte>)
    requires h.ver == 4 && 5 <= h.hlen <= 15 && h.len == 4 * h.hlen + |payload|
    ensures var g := Checksummed4(h);
            CheckHeader(g, Parser(Zeros(4 * h.hlen - LENGTH) + payload, NoError), Header4Bytes(g).value + payload) ==
            (Parser(payload, NoError), NoError)
  {
    var g := Checksummed4(h);
    SkipZeros(4 * h.hlen - LENGTH, payload);
    Header4Checks(h);
    assert (Header4Bytes(g).value + payload)[..4 * h.hlen] == Header4Bytes(g).value;
  }

  lemma ParseStages(p: Parser, f: First, s: Second, h: Ipv4Header, q: Parser, r: ParseResult)
    requires |p.buffer| >= LENGTH && ParseFirst(p) == f && ParseSecond(f.rest) == s && Fields(f, s) == h
    requires CheckHeader(h, s.rest, p.buffer) == (q, r)
    ensures ParseHeader4(p) == (h, q, r)
  {
  }

  lemma FieldsParse(g: Ipv4Header, rest: seq<byte>, p: Parser, f: First, s: Second)
    requires g.ver == 4 && 5 <= g.hlen <= 15 && g.offset < 0x2000
    requires p == Parser(Front4(g, Back4(g, rest)), NoError)
    requires f == First(FirstByte(g), g.tos, g.len, g.id, Fragment(g), Parser(Back4(g, rest), NoError))
    requires s == Second(g.ttl, g.proto, g.cksum, g.src, g.dst, Parser(rest, NoError))
    ensures ParseFirst(p) == f && ParseSecond(f.rest) == s && Fields(f, s) == g
  {
    FirstRoundTrip(g, Back4(g, rest));
    SecondRoundTrip(g, rest);
    FieldsRoundTrip(g, f.rest, s.rest);
  }

  lemma Header4RoundTrip(h: Ipv4Header, payload: seq<byte>)
    requires h.ver == 4 && 5 <= h.hlen <= 15 && h.offset < 0x2000 && h.len == 4 * h.hlen + |payload|
    ensures var g := Checksummed4(h);
            ParseHeader4(Parser(Header4Bytes(g).value + payload, NoError)) == (g, Parser(payload, NoError), NoError)
  {
    var g := Checksummed4(h);
    var rest := Zeros(4 * h.hlen - LENGTH) + payload;
    var p := Parser(Header4Bytes(g).value + payload, NoError);
    var f := First(FirstByte(g), g.tos, g.len, g.id, Fragment(g), Parser(Back4(g, rest), NoError));
    var s := Second(g.ttl, g.proto, g.cksum, g.src, g.dst, Parser(rest, NoError));
    Header4Layout(g, payload);
    FieldsParse(g, rest, p, f, s);
    CheckPasses(h, payload);
    ParseStages(p, f, s, g, Parser(payload, NoError), NoError);
  }

  /** Parsing undoes serializing: every field comes back with the checksum filled in, and the header passes
      its own checks although the datagram parser does not ask. */
  lemma DatagramRoundTrip(d: Datagram)
    requires d.header.ver == 4 && 5 <= d.header.hlen <= 15 && d.header.offset < 0x2000
    requires d.header.len == 4 * d.header.hlen + |d.payload|
    ensures DatagramBytes(d).Some?
    ensures ParseDatagram(DatagramBytes(d).value) == (d.(header := Checksummed4(d.header)), NoError)
    ensures ParseHeader4(Parser(DatagramBytes(d).value, NoError)).2 == NoError
  {
    Header4RoundTrip(d.header, d.payload);
  }

  // The code that appends and consumes

  method SerializeHeader4(h: Ipv4Header) returns (r: Option<seq<byte>>)
    ensures r == Header4Bytes(h)
  {
    if h.ver != 4 {
      return None;
    }
    if 4 * h.hlen < LENGTH {
      return None;
    }
    var ret := SerializeHead4(h);
    ret := UnparseInt(ret, h.cksum, 2);
    ret := UnparseInt(ret, h.src, 4);
    ret := UnparseInt(ret, h.dst, 4);
    ret := Resize(ret, 4 * h.hlen);
    ghost var zeros := Zeros(4 * h.hlen - LENGTH);
    ghost var head := Head4(h) + Bytes(h.cksum, 2);
    Assoc(head + Bytes(h.src, 4), Bytes(h.dst, 4), zeros);
    Assoc(head, Bytes(h.src, 4), Bytes(h.dst, 4) + zeros);
    Assoc(Head4(h), Bytes(h.cksum, 2), Tail4(h));
    return Some(ret);
  }

  method SerializeHead4(h: Ipv4Header) returns (ret: seq<byte>)
    ensures ret == Head4(h)
  {
    ret := [];
    ret := UnparseInt(ret, FirstByte(h), 1);
    ret := UnparseInt(ret, h.tos, 1);
    ret := UnparseInt(ret, h.len, 2);
    ret := UnparseInt(ret, h.id, 2);
    ret := UnparseInt(ret, Fragment(h), 2);
    ret := UnparseInt(ret, h.ttl, 1);
    ret := UnparseInt(ret, h.proto, 1);
    ghost var a1 := Bytes(FirstByte(h), 1);
    ghost var a2 := a1 + Bytes(h.tos, 1);
    ghost var a3 := a2 + Bytes(h.len, 2);
    ghost var a4 := a3 + Bytes(h.id, 2);
    ghost var a5 := a4 + Bytes(Fragment(h), 2);
    ghost var b6 := Bytes(h.ttl, 1) + Bytes(h.proto, 1);
    ghost var b5 := Bytes(Fragment(h), 2) + b6;
    ghost var b4 := Bytes(h.id, 2) + b5;
    ghost var b3 := Bytes(h.len, 2) + b4;
    assert [] + a1 == a1;
    Assoc(a5, Bytes(h.ttl, 1), Bytes(h.proto, 1));
    Assoc(a4, Bytes(Fragment(h), 2), b6);
    Assoc(a3, Bytes(h.id, 2), b5);
    Assoc(a2, Bytes(h.len, 2), b4);
    Assoc(a1, Bytes(h.tos, 1), b3);
  }

  method ParseFields4(p: NetParser) returns (h: Ipv4Header)
    modifies p
    ensures var f := ParseFirst(old(p.View()));
            var s := ParseSecond(f.rest);
            h == Fields(f, s) && p.View() == s.rest
  {
    ghost var start := p.View();
    var first := p.ParseInt(1);
    var tos := p.ParseInt(1);
    var len := p.ParseInt(2);
    var id := p.ParseInt(2);
    var fragment := p.ParseInt(2);
    ghost var f := ParseFirst(start);
    assert f == First(first, tos, len, id, fragment, p.View());
    var ttl := p.ParseInt(1);
    var proto := p.ParseInt(1);
    var cksum := p.ParseInt(2);
    var src := p.ParseInt(4);
    var dst := p.ParseInt(4);
    assert ParseSecond(f.rest) == Second(ttl, proto, cksum, src, dst, p.View());
    h := Ipv4Header(first / 16, first % 16, tos, len, id,
                    fragment / 0x4000 % 2 == 1, fragment / 0x2000 % 2 == 1, fragment % 0x2000,
                    ttl, proto, cksum, src, dst);
  }

  method ParseHeader4From(p: NetParser) returns (h: Ipv4Header, r: ParseResult)
    modifies p
    ensures (h, p.View(), r) == ParseHeader4(old(p.View()))
  {
    var original := p.buffer;
    if |original| < LENGTH {
      return DEFAULT_IPV4_HEADER, PacketTooShort;
    }
    h := ParseFields4(p);
    r := CheckHeaderFrom(h, p, original);
  }

  method CheckHeaderFrom(h: Ipv4Header, p: NetParser, original: seq<byte>) returns (r: ParseResult)
    modifies p
    ensures (p.View(), r) == CheckHeader(h, old(p.View()), original)
  {
    if |original| < 4 * h.hlen {
      return PacketTooShort;
    }
    if h.ver != 4 {
      return WrongIPVersion;
    }
    if h.hlen < 5 {
      return HeaderTooShort;
    }
    if |original| != h.len {
      return TruncatedPacket;
    }
    p.RemovePrefix(4 * h.hlen - LENGTH);
    if p.error != NoError {
      return p.error;
    }
    var v := ChecksumOf(0, original[..4 * h.hlen]);
    if v != 0 {
      return BadChecksum;
    }
    return NoError;
  }

  method ParseDatagramFrom(bytes: seq<byte>) returns (d: Datagram, r: ParseResult)
    ensures (d, r) == ParseDatagram(bytes)
  {
    var p := new NetParser(bytes);
    var h, _ := ParseHeader4From(p);
    d := Datagram(h, p.buffer);
    if |d.payload| != h.PayloadLength() {
      return d, PacketTooShort;
    }
    r := p.error;
  }

  method SerializeDatagram(d: Datagram) returns (r: Option<seq<byte>>)
    ensures r == DatagramBytes(d)
  {
    if |d.payload| != d.header.PayloadLength() {
      return None;
    }
    var zero := SerializeHeader4(d.header.(cksum := 0));
    if zero.None? {
      return None;
    }
    var cksum := ChecksumOf(0, zero.value);
    var header := SerializeHeader4(d.header.(cksum := cksum));
    return Some(header.value + d.payload);
  }
}
