/** Where the fields of IPv4 headers are, exactly what the parsers accept (section 3.1 of RFC 791), and the
    pseudo-header of section 3.1 of RFC 793. */
module Layouts4 {
  import opened Machine
  import opened NetParser
  import opened InternetChecksum
  import opened TcpWire
  import opened Ipv4Wire
  import opened Layouts

  // The pseudo-header

  lemma FourBytes(x: u32)
    ensures Bytes(x, 4) == Bytes(x / 0x1_0000, 2) + Bytes(x % 0x1_0000, 2)
  {
    var y := x % 0x1_0000;
    assert Bytes(x, 4) == Bytes(x / 256 / 256, 2) + [x / 256 % 256] + [x % 256];
    assert Bytes(y / 256 / 256, 0) == [] && Bytes(y, 2) == [y / 256 % 256] + [y % 256];
    assert x / 256 / 256 == x / 0x1_0000 && x / 256 % 256 == y / 256 % 256 && x % 256 == y % 256;
  }

  lemma AddressSum(x: u32)
    ensures WordSum(Bytes(x, 4), false) == Halves(x)
  {
    FourBytes(x);
    WordSumSplit(Bytes(x / 0x1_0000, 2), Bytes(x % 0x1_0000, 2), false);
    TwoBytes(x / 0x1_0000);
    TwoBytes(x % 0x1_0000);
  }

  /** The twelve bytes of the pseudo-header: both addresses, a zero, the protocol and the length of the segment. */
  function PseudoHeader(h: Ipv4Header): (b: seq<byte>)
    ensures |b| == 12
  {
    Bytes(h.src, 4) + (Bytes(h.dst, 4) + ([0, h.proto] + Bytes(h.PayloadLength(), 2)))
  }

  lemma PairSum(x: byte, y: byte)
    ensures WordSum([x, y], false) == 256 * (x as int) + y
  {
    assert [x, y][1..] == [y] && [y][1..] == [];
    assert WordSum([y], true) == y;
  }

  /** What the pseudo-header adds to the checksum is the sum of its words. */
  lemma PseudoIsSum(h: Ipv4Header)
    ensures h.PseudoChecksum() == WordSum(PseudoHeader(h), false)
  {
    var r2 := [0, h.proto] + Bytes(h.PayloadLength(), 2);
    var r1 := Bytes(h.dst, 4) + r2;
    WordSumSplit(Bytes(h.src, 4), r1, false);
    WordSumSplit(Bytes(h.dst, 4), r2, false);
    WordSumSplit([0, h.proto], Bytes(h.PayloadLength(), 2), false);
    AddressSum(h.src);
    AddressSum(h.dst);
    PairSum(0, h.proto);
    TwoBytes(h.PayloadLength());
  }

  // Serialized headers

  ghost predicate Front4At(b: seq<byte>, h: Ipv4Header)
  {
    && |b| >= 8 && b[0] == 64 + h.hlen % 16 && b[1] == h.tos && U16At(b, 2) == h.len && U16At(b, 4) == h.id
    && U16At(b, 6) == (if h.df then 0x4000 else 0) + (if h.mf then 0x2000 else 0) + h.offset % 0x2000
  }

  lemma ThreeWords(u: u16, v: u16, w: u16, y: seq<byte>, b: seq<byte>)
    requires b == Bytes(u, 2) + (Bytes(v, 2) + (Bytes(w, 2) + y))
    ensures |b| == 6 + |y| && U16At(b, 0) == u && U16At(b, 2) == v && U16At(b, 4) == w
    ensures forall i :: 0 <= i < |y| ==> b[6 + i] == y[i]
  {
    var r2 := Bytes(w, 2) + y;
    var r1 := Bytes(v, 2) + r2;
    Limits();
    Starts(u, 2, r1, b);
    Starts(v, 2, r2, r1);
    Starts(w, 2, y, r2);
  }

  lemma TwoBytesThen(u: byte, v: byte, y: seq<byte>, b: seq<byte>)
    requires b == Bytes(u, 1) + (Bytes(v, 1) + y)
    ensures |b| == 2 + |y| && b[0] == u && b[1] == v && forall i :: 0 <= i < |y| ==> b[2 + i] == y[i]
  {
    var r := Bytes(v, 1) + y;
    OneByteThen(u, r, b);
    OneByteThen(v, y, r);
    forall i | 0 <= i < |y| ensures b[2 + i] == y[i] { assert b[1 + (1 + i)] == r[1 + i]; }
  }

  lemma OneByteThen(u: byte, y: seq<byte>, b: seq<byte>)
    requires b == Bytes(u, 1) + y
    ensures |b| == 1 + |y| && b[0] == u && forall i :: 0 <= i < |y| ==> b[1 + i] == y[i]
  {
    Limits();
    Starts(u, 1, y, b);
  }

  lemma FrontAt4(h: Ipv4Header, y: seq<byte>, b: seq<byte>)
    requires h.ver == 4 && b == Front4(h, y)
    ensures Front4At(b, h) && |b| == 8 + |y| && forall i :: 0 <= i < |y| ==> b[8 + i] == y[i]
  {
    var r := Bytes(h.len, 2) + (Bytes(h.id, 2) + (Bytes(Fragment(h), 2) + y));
    TwoBytesThen(FirstByte(h), h.tos, r, b);
    ThreeWords(h.len, h.id, Fragment(h), y, r);
    forall i | 0 <= i < |y| ensures b[8 + i] == y[i] { assert b[2 + (6 + i)] == r[6 + i]; }
  }

  ghost predicate Back4At(b: seq<byte>, h: Ipv4Header)
  {
    && |b| >= 12 && b[0] == h.ttl && b[1] == h.proto && U16At(b, 2) == h.cksum
    && U32At(b, 4) == h.src && U32At(b, 8) == h.dst
  }

  lemma ChecksumAndAddresses(h: Ipv4Header, z: seq<byte>, b: seq<byte>)
    requires b == Bytes(h.cksum, 2) + (Bytes(h.src, 4) + (Bytes(h.dst, 4) + z))
    ensures |b| == 10 + |z| && U16At(b, 0) == h.cksum && U32At(b, 2) == h.src && U32At(b, 6) == h.dst
    ensures forall i :: 0 <= i < |z| ==> b[10 + i] == z[i]
  {
    var r2 := Bytes(h.dst, 4) + z;
    var r1 := Bytes(h.src, 4) + r2;
    Limits();
    Starts(h.cksum, 2, r1, b);
    Starts(h.src, 4, r2, r1);
    Starts(h.dst, 4, z, r2);
  }

  lemma BackAt4(h: Ipv4Header, z: seq<byte>, b: seq<byte>)
    requires b == Back4(h, z)
    ensures Back4At(b, h) && |b| == 12 + |z| && forall i :: 0 <= i < |z| ==> b[12 + i] == z[i]
  {
    var r := Bytes(h.cksum, 2) + (Bytes(h.src, 4) + (Bytes(h.dst, 4) + z));
    TwoBytesThen(h.ttl, h.proto, r, b);
    ChecksumAndAddresses(h, z, r);
    forall i | 0 <= i < |z| ensures b[12 + i] == z[i] { assert b[2 + (10 + i)] == r[10 + i]; }
  }

  lemma Layout4(h: Ipv4Header, z: seq<byte>, y: seq<byte>, b: seq<byte>)
    requires h.ver == 4 && y == Back4(h, z) && b == Front4(h, y)
    ensures Front4At(b, h) && |b| == 20 + |z| && b[8] == h.ttl && b[9] == h.proto && U16At(b, 10) == h.cksum
    ensures U32At(b, 12) == h.src && U32At(b, 16) == h.dst && forall i :: 0 <= i < |z| ==> b[20 + i] == z[i]
  {
    FrontAt4(h, y, b);
    BackAt4(h, z, y);
    forall i | 0 <= i < |z| ensures b[20 + i] == z[i] { assert b[8 + (12 + i)] == y[12 + i]; }
  }

  /** Every field of an IPv4 header is where RFC 791 puts it, high byte first, and the rest of the header is zero. */
  lemma Ipv4Layout(h: Ipv4Header, b: seq<byte>)
    requires h.ver == 4 && h.hlen >= 5 && b == Header4Bytes(h).value
    ensures Front4At(b, h) && |b| == 4 * h.hlen
    ensures b[8] == h.ttl && b[9] == h.proto && U16At(b, 10) == h.cksum
    ensures U32At(b, 12) == h.src && U32At(b, 16) == h.dst && forall i :: 20 <= i < |b| ==> b[i] == 0
  {
    var z := Zeros(4 * h.hlen - 20) + [];
    Header4Layout(h, []);
    assert b + [] == b;
    Layout4(h, z, Back4(h, z), b);
    AllZero(4 * h.hlen - 20);
    forall i | 20 <= i < |b| ensures b[i] == 0 { assert b[20 + (i - 20)] == z[i - 20]; }
  }

  // Parsed headers

  function Header4At(b: seq<byte>): Ipv4Header
    requires |b| >= 20
  {
    Ipv4Header(b[0] / 16, b[0] % 16, b[1], U16At(b, 2), U16At(b, 4),
               U16At(b, 6) / 0x4000 % 2 == 1, U16At(b, 6) / 0x2000 % 2 == 1, U16At(b, 6) % 0x2000,
               b[8], b[9], U16At(b, 10), U32At(b, 12), U32At(b, 16))
  }

  lemma FirstAt(b: seq<byte>)
    requires |b| >= 20
    ensures ParseFirst(Parser(b, NoError)) ==
            Ipv4Wire.First(b[0], b[1], U16At(b, 2), U16At(b, 4), U16At(b, 6), Parser(b[8..], NoError))
  {
    assert b[0..] == b;
    IntAt(b, 0, 1);
    IntAt(b, 1, 1);
    IntAt(b, 2, 2);
    IntAt(b, 4, 2);
    IntAt(b, 6, 2);
    NumbersAt(b, 0);
    NumbersAt(b, 1);
    NumbersAt(b, 2);
    NumbersAt(b, 4);
    NumbersAt(b, 6);
  }

  lemma SecondAt(b: seq<byte>)
    requires |b| >= 20
    ensures ParseSecond(Parser(b[8..], NoError)) ==
            Second(b[8], b[9], U16At(b, 10), U32At(b, 12), U32At(b, 16), Parser(b[20..], NoError))
  {
    IntAt(b, 8, 1);
    IntAt(b, 9, 1);
    IntAt(b, 10, 2);
    IntAt(b, 12, 4);
    IntAt(b, 16, 4);
    NumbersAt(b, 8);
    NumbersAt(b, 9);
    NumbersAt(b, 10);
    NumbersAt(b, 12);
    NumbersAt(b, 16);
  }

  /** The version, the header length and the total length agree with the packet. */
  predicate Whole(b: seq<byte>)
    requires |b| >= 20
  {
    b[0] / 16 == 4 && 5 <= b[0] % 16 && 4 * (b[0] % 16) <= |b| && |b| == U16At(b, 2)
  }

  /** The verdict of the header parser, for any packet. */
  function Verdict4(b: seq<byte>): ParseResult
  {
    if |b| < 20 || |b| < 4 * (b[0] % 16) then PacketTooShort
    else if b[0] / 16 != 4 then WrongIPVersion
    else if b[0] % 16 < 5 then HeaderTooShort
    else if |b| != U16At(b, 2) then TruncatedPacket
    else if !SumChecks(b[..4 * (b[0] % 16)], 0) then BadChecksum
    else NoError
  }

  lemma HeaderSum(b: seq<byte>, n: nat)
    requires 20 <= n <= 60 && n <= |b|
    ensures Complement(Trunc32(WordSum(b[..n], false))) == 0 <==> SumChecks(b[..n], 0)
  {
    TestIsSum(b[..n], 0);
  }

  lemma CheckedAt(b: seq<byte>)
    requires |b| >= 20
    ensures var (q, r) := CheckHeader(Header4At(b), Parser(b[20..], NoError), b);
            && r == Verdict4(b)
            && q == Parser(b[if Whole(b) then 4 * (b[0] % 16) else 20..], NoError)
  {
    var n := 4 * (b[0] % 16);
    if Whole(b) {
      DropAgain(b, n - 20);
      HeaderSum(b, n);
    }
  }

  /** The header parser, for any packet: the fields at their offsets and the verdict. */
  lemma Header4Verdict(b: seq<byte>)
    ensures var (h, p, r) := ParseHeader4(Parser(b, NoError));
            && r == Verdict4(b)
            && (|b| >= 20 ==> h == Header4At(b) && p == Parser(b[if Whole(b) then 4 * (b[0] % 16) else 20..], NoError))
  {
    if |b| >= 20 {
      FirstAt(b);
      SecondAt(b);
      CheckedAt(b);
      ParseStages(Parser(b, NoError), ParseFirst(Parser(b, NoError)), ParseSecond(Parser(b[8..], NoError)),
                  Header4At(b), CheckHeader(Header4At(b), Parser(b[20..], NoError), b).0, Verdict4(b));
    }
  }

  /** The datagram parser accepts a packet if and only if it is whole, whatever its checksum; or it is not, and happens
      to have as many bytes after the first twenty as its two length fields leave in sixteen bits. */
  lemma DatagramAcceptedIff(b: seq<byte>)
    requires |b| <= 0xffff
    ensures ParseDatagram(b).1 == NoError <==>
            |b| >= 20 && (Whole(b) || |b| - 20 == Trunc16(U16At(b, 2) - 4 * (b[0] % 16)))
    ensures ParseDatagram(b).1 == NoError ==>
            ParseDatagram(b).0 == Datagram(Header4At(b), b[if Whole(b) then 4 * (b[0] % 16) else 20..])
  {
    Header4Verdict(b);
    if |b| < 20 { assert Trunc16(0 - 20) == 65516; }
  }
}
