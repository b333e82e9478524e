/** TCP headers and segments as bytes (section 3.1 of RFC 793). */
module TcpWire {
  import opened Machine
  import opened Segments
  import opened NetParser
  import opened InternetChecksum

  const HEADER_LENGTH: nat := 20

  function Bit(b: bool, weight: nat): nat { if b then weight else 0 }

  /** The flag byte: the six flags, URG the highest and FIN the lowest. */
  function Flags(h: TcpHeader): (f: nat)
    ensures f < 64
  {
    Bit(h.urg, 32) + Bit(h.ack, 16) + Bit(h.psh, 8) + Bit(h.rst, 4) + Bit(h.syn, 2) + Bit(h.fin, 1)
  }

  /** The flags read off a byte, from the highest down; the two bits above URG are ignored. */
  function WithFlags(h: TcpHeader, flags: nat): TcpHeader
  {
    var f6 := LowSix(flags);
    var f5 := f6 - Bit(f6 >= 32, 32);
    var f4 := f5 - Bit(f5 >= 16, 16);
    var f3 := f4 - Bit(f4 >= 8, 8);
    var f2 := f3 - Bit(f3 >= 4, 4);
    var f1 := f2 - Bit(f2 >= 2, 2);
    h.(urg := f6 >= 32, ack := f5 >= 16, psh := f4 >= 8, rst := f3 >= 4, syn := f2 >= 2, fin := f1 >= 1)
  }

  function LowSix(flags: nat): (f: nat)
    ensures f < 64 && (flags < 64 ==> f == flags)
  {
    flags % 64
  }

  lemma FlagsRoundTrip(h: TcpHeader, g: TcpHeader)
    ensures WithFlags(g, Flags(h)) ==
            g.(urg := h.urg, ack := h.ack, psh := h.psh, rst := h.rst, syn := h.syn, fin := h.fin)
  {
    var f5 := Bit(h.ack, 16) + Bit(h.psh, 8) + Bit(h.rst, 4) + Bit(h.syn, 2) + Bit(h.fin, 1);
    var f4 := Bit(h.psh, 8) + Bit(h.rst, 4) + Bit(h.syn, 2) + Bit(h.fin, 1);
    var f3 := Bit(h.rst, 4) + Bit(h.syn, 2) + Bit(h.fin, 1);
    assert f3 < 8 && f4 < 16 && f5 < 32;
  }

  function Zeros(n: nat): (z: seq<byte>)
    ensures |z| == n
  {
    if n == 0 then [] else [0] + Zeros(n - 1)
  }

  /** What comes before the checksum. The data offset is shifted within its byte, which loses its high bits. */
  function Head(h: TcpHeader): (b: seq<byte>)
    ensures |b| == 16
  {
    Bytes(h.sport, 2) + (Bytes(h.dport, 2) + (Bytes(h.seqno, 4) + (Bytes(h.ackno, 4) +
      (Bytes((h.doff as int) * 16 % 256, 1) + (Bytes(Flags(h), 1) + Bytes(h.win, 2))))))
  }

  /** What follows the checksum: the urgent pointer and zeros up to the advertised header length. */
  function Tail(h: TcpHeader): (b: seq<byte>)
    requires h.doff >= 5
    ensures |b| == 4 * h.doff - 18
  {
    Bytes(h.uptr, 2) + Zeros(4 * h.doff - HEADER_LENGTH)
  }

  /** The header as bytes, or nothing where the source throws because the offset is too small. */
  function HeaderBytes(h: TcpHeader): (r: Option<seq<byte>>)
    ensures r.Some? <==> h.doff >= 5
    ensures r.Some? ==> |r.value| == 4 * h.doff
  {
    if h.doff < 5 then None else Some(Head(h) + (Bytes(h.cksum, 2) + Tail(h)))
  }

  /** The ports and sequence numbers, and the parser after them. */
  datatype Front = Front(sport: u16, dport: u16, seqno: u32, ackno: u32, rest: Parser)

  function ParseFront(p: Parser): Front
  {
    var (sport, p1) := p.Int(2);
    var (dport, p2) := p1.Int(2);
    var (seqno, p3) := p2.Int(4);
    var (ackno, p4) := p3.Int(4);
    Front(sport, dport, seqno, ackno, p4)
  }

  /** The rest of the fixed fields, and the parser after them. */
  datatype Back = Back(doff: byte, flags: byte, win: u16, cksum: u16, uptr: u16, rest: Parser)

  function ParseBack(p: Parser): Back
  {
    var (doff, p1) := p.Int(1);
    var (flags, p2) := p1.Int(1);
    var (win, p3) := p2.Int(2);
    var (cksum, p4) := p3.Int(2);
    var (uptr, p5) := p4.Int(2);
    Back(doff, flags, win, cksum, uptr, p5)
  }

  /** The header from its fields; the options are skipped. */
  function Assembled(f: Front, b: Back): (TcpHeader, Parser, ParseResult)
  {
    var h := WithFlags(
      TcpHeader(f.sport, f.dport, f.seqno, f.ackno, b.doff / 16, false, false, false, false, false, false,
                b.win, b.cksum, b.uptr),
      b.flags);
    if h.doff < 5 then (h, b.rest, HeaderTooShort) else
    var p := b.rest.RemovePrefix(4 * h.doff - HEADER_LENGTH);
    (h, p, p.error)
  }

  /** The fields in the order they are read, what is left, and the result. */
  function ParseHeader(p: Parser): (TcpHeader, Parser, ParseResult)
  {
    Assembled(ParseFront(p), ParseBack(ParseFront(p).rest))
  }

  lemma SkipZeros(n: nat, rest: seq<byte>)
    ensures Parser(Zeros(n) + rest, NoError).RemovePrefix(n) == Parser(rest, NoError)
  {
    assert (Zeros(n) + rest)[n..] == rest;
  }

  lemma BackParses(doff: byte, flags: byte, win: u16, cksum: u16, uptr: u16, rest: seq<byte>)
    ensures ParseBack(Parser(Bytes(doff, 1) + (Bytes(flags, 1) + (Bytes(win, 2) + (Bytes(cksum, 2) +
                       (Bytes(uptr, 2) + rest)))), NoError)) ==
            Back(doff, flags, win, cksum, uptr, Parser(rest, NoError))
  {
    var r5 := Bytes(uptr, 2) + rest;
    var r4 := Bytes(cksum, 2) + r5;
    var r3 := Bytes(win, 2) + r4;
    var r2 := Bytes(flags, 1) + r3;
    IntOfBytes(doff, 1, r2);
    IntOfBytes(flags, 1, r3);
    IntOfBytes(win, 2, r4);
    IntOfBytes(cksum, 2, r5);
    IntOfBytes(uptr, 2, rest);
  }

  lemma BackRoundTrip(h: TcpHeader, rest: seq<byte>)
    requires h.doff <= 15
    ensures ParseBack(Parser(Bytes((h.doff as int) * 16 % 256, 1) + (Bytes(Flags(h), 1) + (Bytes(h.win, 2) +
                       (Bytes(h.cksum, 2) + (Bytes(h.uptr, 2) + rest)))), NoError)) ==
            Back((h.doff as int) * 16, Flags(h), h.win, h.cksum, h.uptr, Parser(rest, NoError))
  {
    assert (h.doff as int) * 16 % 256 == (h.doff as int) * 16;
    BackParses((h.doff as int) * 16, Flags(h), h.win, h.cksum, h.uptr, rest);
  }

  lemma FrontRoundTrip(h: TcpHeader, rest: seq<byte>)
    ensures ParseFront(Parser(Bytes(h.sport, 2) + (Bytes(h.dport, 2) + (Bytes(h.seqno, 4) +
                       (Bytes(h.ackno, 4) + rest))), NoError)) ==
            Front(h.sport, h.dport, h.seqno, h.ackno, Parser(rest, NoError))
  {
    var r3 := Bytes(h.ackno, 4) + rest;
    var r2 := Bytes(h.seqno, 4) + r3;
    var r1 := Bytes(h.dport, 2) + r2;
    IntOfBytes(h.sport, 2, r1);
    IntOfBytes(h.dport, 2, r2);
    IntOfBytes(h.seqno, 4, r3);
    IntOfBytes(h.ackno, 4, rest);
  }

  lemma AssembledRoundTrip(h: TcpHeader, rest: seq<byte>)
    requires 5 <= h.doff <= 15
    ensures Assembled(Front(h.sport, h.dport, h.seqno, h.ackno, Parser([], NoError)),
                      Back((h.doff as int) * 16, Flags(h), h.win, h.cksum, h.uptr,
                           Parser(Zeros(4 * h.doff - HEADER_LENGTH) + rest, NoError)))
            == (h, Parser(rest, NoError), NoError)
  {
    SkipZeros(4 * h.doff - HEADER_LENGTH, rest);
    FlagsRoundTrip(h, TcpHeader(h.sport, h.dport, h.seqno, h.ackno, h.doff, false, false, false, false, false, false,
                                h.win, h.cksum, h.uptr));
  }

  /** What comes after the head, moved inside. */
  lemma HeadThen(h: TcpHeader, x: seq<byte>)
    ensures Head(h) + x ==
      Bytes(h.sport, 2) + (Bytes(h.dport, 2) + (Bytes(h.seqno, 4) + (Bytes(h.ackno, 4) +
        (Bytes((h.doff as int) * 16 % 256, 1) + (Bytes(Flags(h), 1) + (Bytes(h.win, 2) + x))))))
  {
    var b6 := Bytes(Flags(h), 1) + Bytes(h.win, 2);
    var b5 := Bytes((h.doff as int) * 16 % 256, 1) + b6;
    var b4 := Bytes(h.ackno, 4) + b5;
    var b3 := Bytes(h.seqno, 4) + b4;
    var b2 := Bytes(h.dport, 2) + b3;
    Assoc(Bytes(h.sport, 2), b2, x);
    Assoc(Bytes(h.dport, 2), b3, x);
    Assoc(Bytes(h.seqno, 4), b4, x);
    Assoc(Bytes(h.ackno, 4), b5, x);
    Assoc(Bytes((h.doff as int) * 16 % 256, 1), b6, x);
    Assoc(Bytes(Flags(h), 1), Bytes(h.win, 2), x);
  }

  /** The whole header and what follows it, field by field. */
  lemma HeaderLayout(h: TcpHeader, rest: seq<byte>)
    requires h.doff >= 5
    ensures HeaderBytes(h).value + rest ==
      Bytes(h.sport, 2) + (Bytes(h.dport, 2) + (Bytes(h.seqno, 4) + (Bytes(h.ackno, 4) +
        (Bytes((h.doff as int) * 16 % 256, 1) + (Bytes(Flags(h), 1) + (Bytes(h.win, 2) +
          (Bytes(h.cksum, 2) + (Bytes(h.uptr, 2) + (Zeros(4 * h.doff - HEADER_LENGTH) + rest)))))))))
  {
    var zeros := Zeros(4 * h.doff - HEADER_LENGTH);
    Assoc(Head(h), Bytes(h.cksum, 2) + Tail(h), rest);
    Assoc(Bytes(h.cksum, 2), Tail(h), rest);
    Assoc(Bytes(h.uptr, 2), zeros, rest);
    HeadThen(h, Bytes(h.cksum, 2) + (Bytes(h.uptr, 2) + (zeros + rest)));
  }

  /** Parsing undoes serializing, for every header whose data offset fits its four bits. */
  lemma HeaderRoundTrip(h: TcpHeader, rest: seq<byte>)
    requires 5 <= h.doff <= 15
    ensures ParseHeader(Parser(HeaderBytes(h).value + rest, NoError)) == (h, Parser(rest, NoError), NoError)
  {
    var n := 4 * h.doff - HEADER_LENGTH;
    var x := Bytes((h.doff as int) * 16 % 256, 1) + (Bytes(Flags(h), 1) + (Bytes(h.win, 2) +
               (Bytes(h.cksum, 2) + (Bytes(h.uptr, 2) + (Zeros(n) + rest)))));
    var p := Parser(HeaderBytes(h).value + rest, NoError);
    HeaderLayout(h, rest);
    FrontRoundTrip(h, x);
    BackRoundTrip(h, Zeros(n) + rest);
    AssembledRoundTrip(h, rest);
  }

  /** Outside that range it does not: the parser never returns an offset above fifteen. */
  lemma HeaderRoundTripIff(h: TcpHeader, rest: seq<byte>)
    requires h.doff >= 5
    ensures ParseHeader(Parser(HeaderBytes(h).value + rest, NoError)) == (h, Parser(rest, NoError), NoError) <==>
            h.doff <= 15
  {
    if h.doff <= 15 { HeaderRoundTrip(h, rest); }
  }

  /** The sum of the words of a header is that of the header without its checksum, plus the checksum. */
  lemma ChecksumAdds(h: TcpHeader, payload: seq<byte>)
    requires h.doff >= 5
    ensures WordSum(HeaderBytes(h).value + payload, false) ==
            WordSum(HeaderBytes(h.(cksum := 0)).value + payload, false) + h.cksum
  {
    var z := h.(cksum := 0);
    assert Head(z) == Head(h) && Tail(z) == Tail(h);
    ChecksumField(Head(h), h.cksum, Tail(h), payload);
    ChecksumField(Head(h), 0, Tail(h), payload);
  }

  lemma ChecksumField(a: seq<byte>, cksum: u16, b: seq<byte>, payload: seq<byte>)
    requires |a| % 2 == 0
    ensures WordSum(a + (Bytes(cksum, 2) + b) + payload, false) ==
            WordSum(a, false) + cksum + WordSum(b + payload, false)
  {
    Assoc(a, Bytes(cksum, 2) + b, payload);
    Assoc(Bytes(cksum, 2), b, payload);
    WordSumSplit(a, Bytes(cksum, 2) + (b + payload), false);
    WordSumSplit(Bytes(cksum, 2), b + payload, false);
    TwoBytes(cksum);
  }

  lemma TwoBytes(x: u16)
    ensures WordSum(Bytes(x, 2), false) == x
  {
    var high, low: byte := x / 256, x % 256;
    assert Bytes(x / 256, 1) == [high] by { assert Bytes(x / 256 / 256, 0) == []; }
    assert Bytes(x, 2) == [high, low];
    assert [high, low][1..] == [low] && [low][1..] == [];
    assert WordSum([low], true) == low;
  }

  /** The words of a segment whose pseudo-header adds up to `pseudo`; the segment is short enough not to
      overflow 32 bits. */
  function Summed(pseudo: nat, bytes: seq<byte>): nat { pseudo + WordSum(bytes, false) }

  lemma SummedFits(pseudo: nat, bytes: seq<byte>)
    requires pseudo <= 0x10_0000 && |bytes| <= 0xffff
    ensures Trunc32(Summed(pseudo, bytes)) == Summed(pseudo, bytes)
  {
    WordSumBound(bytes);
  }

  /** The segment as bytes with the checksum filled in, computed over the header with a zero checksum and the
      payload; nothing where the header throws. */
  function Checksummed(seg: TcpSegment, pseudo: u32): TcpHeader
    requires seg.header.doff >= 5
  {
    var zero := seg.header.(cksum := 0);
    seg.header.(cksum := Complement(Trunc32(Summed(pseudo, HeaderBytes(zero).value + seg.payload))))
  }

  function SegmentBytes(seg: TcpSegment, pseudo: u32): Option<seq<byte>>
  {
    if seg.header.doff < 5 then None else Some(HeaderBytes(Checksummed(seg, pseudo)).value + seg.payload)
  }

  function ParseSegment(bytes: seq<byte>, pseudo: u32): (TcpSegment, ParseResult)
  {
    if Complement(Trunc32(Summed(pseudo, bytes))) != 0 then (EMPTY_SEGMENT, BadChecksum) else
    var (h, p, _) := ParseHeader(Parser(bytes, NoError));
    (TcpSegment(h, p.buffer), p.error)
  }

  /** What is serialized passes the checksum test. */
  lemma SegmentChecks(seg: TcpSegment, pseudo: u32)
    requires 5 <= seg.header.doff && 4 * seg.header.doff + |seg.payload| <= 0xffff && pseudo <= 0x10_0000
    ensures Complement(Trunc32(Summed(pseudo, SegmentBytes(seg, pseudo).value))) == 0
  {
    var h := Checksummed(seg, pseudo);
    var zero := seg.header.(cksum := 0);
    var z := HeaderBytes(zero).value + seg.payload;
    SummedFits(pseudo, z);
    SummedFits(pseudo, SegmentBytes(seg, pseudo).value);
    assert h.(cksum := 0) == zero;
    ChecksumAdds(h, seg.payload);
    ChecksumChecks(Summed(pseudo, z));
  }

  /** Parsing undoes serializing: the checksum verifies and every field comes back. */
  lemma SegmentRoundTrip(seg: TcpSegment, pseudo: u32)
    requires 5 <= seg.header.doff <= 15 && 4 * seg.header.doff + |seg.payload| <= 0xffff && pseudo <= 0x10_0000
    ensures ParseSegment(SegmentBytes(seg, pseudo).value, pseudo) ==
            (seg.(header := Checksummed(seg, pseudo)), NoError)
  {
    SegmentChecks(seg, pseudo);
    HeaderRoundTrip(Checksummed(seg, pseudo), seg.payload);
  }

  method Resize(s: seq<byte>, n: nat) returns (t: seq<byte>)
    requires |s| <= n
    ensures t == s + Zeros(n - |s|)
  {
    t := s;
    for i := |s| to n
      invariant |t| == i && t == s + Zeros(i - |s|)
    {
      ZerosSnoc(i - |s|);
      t := t + [0];
    }
  }

  lemma {:induction false} ZerosSnoc(n: nat)
    ensures Zeros(n + 1) == Zeros(n) + [0]
  {
    if n > 0 { ZerosSnoc(n - 1); }
  }

  method SerializeHeader(h: TcpHeader) returns (r: Option<seq<byte>>)
    ensures r == HeaderBytes(h)
  {
    if h.doff < 5 {
      return None;
    }
    var ret := SerializeHead(h);
    ret := UnparseInt(ret, h.cksum, 2);
    ret := UnparseInt(ret, h.uptr, 2);
    ret := Resize(ret, 4 * h.doff);
    ghost var zeros := Zeros(4 * h.doff - HEADER_LENGTH);
    Assoc(Head(h) + Bytes(h.cksum, 2), Bytes(h.uptr, 2), zeros);
    Assoc(Head(h), Bytes(h.cksum, 2), Tail(h));
    return Some(ret);
  }

  method SerializeHead(h: TcpHeader) returns (ret: seq<byte>)
    ensures ret == Head(h)
  {
    ret := [];
    ret := UnparseInt(ret, h.sport, 2);
    ret := UnparseInt(ret, h.dport, 2);
    ret := UnparseInt(ret, h.seqno, 4);
    ret := UnparseInt(ret, h.ackno, 4);
    ret := UnparseInt(ret, (h.doff as int) * 16 % 256, 1);
    ret := UnparseInt(ret, Flags(h), 1);
    ret := UnparseInt(ret, h.win, 2);
    ghost var a1 := Bytes(h.sport, 2);
    ghost var a2 := a1 + Bytes(h.dport, 2);
    ghost var a3 := a2 + Bytes(h.seqno, 4);
    ghost var a4 := a3 + Bytes(h.ackno, 4);
    ghost var a5 := a4 + Bytes((h.doff as int) * 16 % 256, 1);
    ghost var b6 := Bytes(Flags(h), 1) + Bytes(h.win, 2);
    ghost var b5 := Bytes((h.doff as int) * 16 % 256, 1) + b6;
    ghost var b4 := Bytes(h.ackno, 4) + b5;
    ghost var b3 := Bytes(h.seqno, 4) + b4;
    assert [] + a1 == a1;
    Assoc(a5, Bytes(Flags(h), 1), Bytes(h.win, 2));
    Assoc(a4, Bytes((h.doff as int) * 16 % 256, 1), b6);
    Assoc(a3, Bytes(h.ackno, 4), b5);
    Assoc(a2, Bytes(h.seqno, 4), b4);
    Assoc(a1, Bytes(h.dport, 2), b3);
  }

  method ParseHeaderFrom(p: NetParser) returns (h: TcpHeader, r: ParseResult)
    modifies p
    ensures (h, p.View(), r) == ParseHeader(old(p.View()))
  {
    ghost var start := p.View();
    var sport := p.ParseInt(2);
    var dport := p.ParseInt(2);
    var seqno := p.ParseInt(4);
    var ackno := p.ParseInt(4);
    ghost var front := ParseFront(start);
    assert front == Front(sport, dport, seqno, ackno, p.View());
    var doff := p.ParseInt(1);
    var flags := p.ParseInt(1);
    var win := p.ParseInt(2);
    var cksum := p.ParseInt(2);
    var uptr := p.ParseInt(2);
    assert ParseBack(front.rest) == Back(doff, flags, win, cksum, uptr, p.View());
    h := TcpHeader(sport, dport, seqno, ackno, doff / 16, false, false, false, false, false, false, win, cksum, uptr);
    h := WithFlags(h, flags);
    if h.doff < 5 {
      return h, HeaderTooShort;
    }
    p.RemovePrefix(4 * h.doff - HEADER_LENGTH);
    r := p.error;
  }

  method SerializeSegment(seg: TcpSegment, pseudo: u32) returns (r: Option<seq<byte>>)
    ensures r == SegmentBytes(seg, pseudo)
  {
    var zero := SerializeHeader(seg.header.(cksum := 0));
    if zero.None? {
      return None;
    }
    var check := new InternetChecksum(pseudo);
    check.Add(zero.value);
    check.Add(seg.payload);
    WordSumSplit(zero.value, seg.payload, false);
    TruncAdd(pseudo + WordSum(zero.value, false), WordSum(seg.payload, false));
    var cksum := check.Value();
    var header := SerializeHeader(seg.header.(cksum := cksum));
    return Some(header.value + seg.payload);
  }

  /** Parses a header and takes the rest for the payload. */
  method ParseUnchecked(bytes: seq<byte>) returns (seg: TcpSegment, r: ParseResult)
    ensures var (h, p, _) := ParseHeader(Parser(bytes, NoError)); seg == TcpSegment(h, p.buffer) && r == p.error
  {
    var p := new NetParser(bytes);
    var h, _ := ParseHeaderFrom(p);
    return TcpSegment(h, p.buffer), p.error;
  }

  method ParseSegmentFrom(bytes: seq<byte>, pseudo: u32) returns (seg: TcpSegment, r: ParseResult)
    ensures (seg, r) == ParseSegment(bytes, pseudo)
  {
    var v := ChecksumOf(pseudo, bytes);
    if v != 0 {
      return EMPTY_SEGMENT, BadChecksum;
    }
    seg, r := ParseUnchecked(bytes);
  }
}
