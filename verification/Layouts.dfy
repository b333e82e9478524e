/** Where the fields of TCP and IPv4 headers are, byte by byte, and exactly what the parsers accept (section 3.1 of
    RFC 793 and section 3.1 of RFC 791). */
module Layouts {
  import opened Machine
  import opened Segments
  import opened NetParser
  import opened InternetChecksum
  import opened TcpWire

  /** Sixteen and thirty-two bits at an offset, high byte first. */
  function U16At(b: seq<byte>, i: nat): u16
    requires i + 2 <= |b|
  {
    256 * (b[i] as int) + b[i + 1]
  }

  function U32At(b: seq<byte>, i: nat): u32
    requires i + 4 <= |b|
  {
    0x100_0000 * (b[i] as int) + 0x1_0000 * (b[i + 1] as int) + 256 * (b[i + 2] as int) + b[i + 3]
  }

  lemma {:induction false} NumberSnoc(b: seq<byte>, i: nat, n: nat)
    requires i + n < |b|
    ensures Number(b[i..i + n + 1]) == 256 * Number(b[i..i + n]) + b[i + n]
  {
    assert b[i..i + n + 1][..n] == b[i..i + n];
  }

  lemma NumbersAt(b: seq<byte>, i: nat)
    ensures i + 1 <= |b| ==> Number(b[i..i + 1]) == b[i]
    ensures i + 2 <= |b| ==> Number(b[i..i + 2]) == U16At(b, i)
    ensures i + 4 <= |b| ==> Number(b[i..i + 4]) == U32At(b, i)
  {
    if i + 1 <= |b| {
      assert b[i..i] == [];
      NumberSnoc(b, i, 0);
    }
    if i + 2 <= |b| { NumberSnoc(b, i, 1); }
    if i + 4 <= |b| {
      NumberSnoc(b, i, 2);
      NumberSnoc(b, i, 3);
    }
  }

  lemma Limits()
    ensures Limit(1) == 0x100 && Limit(2) == 0x1_0000 && Limit(4) == 0x1_0000_0000
  {
    assert Limit(2) == 256 * Limit(1) && Limit(3) == 256 * Limit(2) && Limit(4) == 256 * Limit(3);
  }

  /** A number that was written is read back at the place where it stands. */
  lemma Starts(val: nat, n: nat, r: seq<byte>, b: seq<byte>)
    requires b == Bytes(val, n) + r && val < Limit(n)
    ensures n == 1 ==> b[0] == val
    ensures n == 2 ==> U16At(b, 0) == val
    ensures n == 4 ==> U32At(b, 0) == val
    ensures forall i :: 0 <= i < |r| ==> b[n + i] == r[i]
  {
    NumberOfBytes(val, n);
    assert b[0..n] == Bytes(val, n);
    NumbersAt(b, 0);
  }

  // Serialized TCP headers

  /** The part before the checksum: the numbers at their offsets. */
  ghost predicate HeadAt(b: seq<byte>, h: TcpHeader)
  {
    && |b| >= 16
    && U16At(b, 0) == h.sport && U16At(b, 2) == h.dport && U32At(b, 4) == h.seqno && U32At(b, 8) == h.ackno
    && b[12] == (h.doff as int) * 16 % 256 && U16At(b, 14) == h.win
    && b[13] == (if h.urg then 32 else 0) + (if h.ack then 16 else 0) + (if h.psh then 8 else 0) +
                (if h.rst then 4 else 0) + (if h.syn then 2 else 0) + (if h.fin then 1 else 0)
  }

  /** What follows the acknowledgment number. */
  lemma BackHeadAt(h: TcpHeader, x: seq<byte>) returns (b: seq<byte>)
    ensures b == Bytes((h.doff as int) * 16 % 256, 1) + (Bytes(Flags(h), 1) + (Bytes(h.win, 2) + x))
    ensures |b| == 4 + |x| && b[0] == (h.doff as int) * 16 % 256 && b[1] == Flags(h) && U16At(b, 2) == h.win
    ensures forall i :: 0 <= i < |x| ==> b[4 + i] == x[i]
  {
    var r2 := Bytes(h.win, 2) + x;
    var r1 := Bytes(Flags(h), 1) + r2;
    b := Bytes((h.doff as int) * 16 % 256, 1) + r1;
    Limits();
    Starts((h.doff as int) * 16 % 256, 1, r1, b);
    Starts(Flags(h), 1, r2, r1);
    Starts(h.win, 2, x, r2);
  }

  lemma FrontHeadAt(h: TcpHeader, y: seq<byte>) returns (b: seq<byte>)
    ensures b == Bytes(h.sport, 2) + (Bytes(h.dport, 2) + (Bytes(h.seqno, 4) + (Bytes(h.ackno, 4) + y)))
    ensures |b| == 12 + |y| && U16At(b, 0) == h.sport && U16At(b, 2) == h.dport
    ensures U32At(b, 4) == h.seqno && U32At(b, 8) == h.ackno
    ensures forall i :: 0 <= i < |y| ==> b[12 + i] == y[i]
  {
    var r3 := Bytes(h.ackno, 4) + y;
    var r2 := Bytes(h.seqno, 4) + r3;
    var r1 := Bytes(h.dport, 2) + r2;
    b := Bytes(h.sport, 2) + r1;
    Limits();
    Starts(h.sport, 2, r1, b);
    Starts(h.dport, 2, r2, r1);
    Starts(h.seqno, 4, r3, r2);
    Starts(h.ackno, 4, y, r3);
  }

  lemma TailAt(h: TcpHeader) returns (x: seq<byte>)
    requires h.doff >= 5
    ensures x == Bytes(h.cksum, 2) + (Bytes(h.uptr, 2) + (Zeros(4 * h.doff - 20) + []))
    ensures |x| == 4 * h.doff - 16 && U16At(x, 0) == h.cksum && U16At(x, 2) == h.uptr
    ensures forall i :: 4 <= i < |x| ==> x[i] == 0
  {
    var zeros := Zeros(4 * h.doff - 20) + [];
    var r := Bytes(h.uptr, 2) + zeros;
    x := Bytes(h.cksum, 2) + r;
    Limits();
    Starts(h.cksum, 2, r, x);
    Starts(h.uptr, 2, zeros, r);
    AllZero(4 * h.doff - 20);
    forall i | 4 <= i < |x| ensures x[i] == 0 { assert x[i] == r[i - 2] == zeros[i - 4]; }
  }

  lemma {:induction false} AllZero(n: nat)
    ensures forall i :: 0 <= i < n ==> Zeros(n)[i] == 0
  {
    if n > 0 { AllZero(n - 1); }
  }

  /** Every field of a TCP header is where RFC 793 puts it, high byte first, and the rest of the header is zero. */
  lemma TcpLayout(h: TcpHeader, b: seq<byte>)
    requires h.doff >= 5 && b == HeaderBytes(h).value
    ensures HeadAt(b, h) && U16At(b, 16) == h.cksum && U16At(b, 18) == h.uptr
    ensures |b| == 4 * h.doff && forall i :: 20 <= i < |b| ==> b[i] == 0
  {
    var x := TailAt(h);
    var y := BackHeadAt(h, x);
    var c := FrontHeadAt(h, y);
    HeaderLayout(h, []);
    assert b + [] == b;
    assert c == b;
    forall i | 0 <= i < |x| ensures b[16 + i] == x[i] { assert b[12 + (4 + i)] == y[4 + i]; }
  }

  // Parsed TCP headers

  /** Reading a number off the front of a buffer that is long enough. */
  lemma IntAt(b: seq<byte>, k: nat, n: nat)
    requires k + n <= |b|
    ensures Parser(b[k..], NoError).Int(n) == (Number(b[k..k + n]), Parser(b[k + n..], NoError))
  {
    assert b[k..][..n] == b[k..k + n] && b[k..][n..] == b[k + n..];
  }

  lemma FrontAt(b: seq<byte>)
    requires |b| >= 20
    ensures ParseFront(Parser(b, NoError)) ==
            Front(U16At(b, 0), U16At(b, 2), U32At(b, 4), U32At(b, 8), Parser(b[12..], NoError))
  {
    assert b[0..] == b;
    IntAt(b, 0, 2);
    IntAt(b, 2, 2);
    IntAt(b, 4, 4);
    IntAt(b, 8, 4);
    NumbersAt(b, 0);
    NumbersAt(b, 2);
    NumbersAt(b, 4);
    NumbersAt(b, 8);
  }

  lemma BackAt(b: seq<byte>)
    requires |b| >= 20
    ensures ParseBack(Parser(b[12..], NoError)) ==
            Back(b[12], b[13], U16At(b, 14), U16At(b, 16), U16At(b, 18), Parser(b[20..], NoError))
  {
    IntAt(b, 12, 1);
    IntAt(b, 13, 1);
    IntAt(b, 14, 2);
    IntAt(b, 16, 2);
    IntAt(b, 18, 2);
    NumbersAt(b, 12);
    NumbersAt(b, 13);
    NumbersAt(b, 14);
    NumbersAt(b, 16);
    NumbersAt(b, 18);
  }

  /** The bit of the given weight in a byte. */
  predicate HasBit(b: byte, weight: nat)
    requires weight > 0
  {
    b / weight % 2 == 1
  }

  // Taking the highest of the low bits away

  lemma Bit32(f: byte)
    ensures (HasBit(f, 32) <==> f % 64 >= 32) && f % 32 == f % 64 - Bit(f % 64 >= 32, 32)
  {
    var q, r := f / 64, f % 64;
    assert f == 64 * q + r;
    if r >= 32 { assert f == 32 * (2 * q + 1) + (r - 32); } else { assert f == 32 * (2 * q) + r; }
  }

  lemma Bit16(f: byte)
    ensures (HasBit(f, 16) <==> f % 32 >= 16) && f % 16 == f % 32 - Bit(f % 32 >= 16, 16)
  {
    var q, r := f / 32, f % 32;
    assert f == 32 * q + r;
    if r >= 16 { assert f == 16 * (2 * q + 1) + (r - 16); } else { assert f == 16 * (2 * q) + r; }
  }

  lemma Bit8(f: byte)
    ensures (HasBit(f, 8) <==> f % 16 >= 8) && f % 8 == f % 16 - Bit(f % 16 >= 8, 8)
  {
    var q, r := f / 16, f % 16;
    assert f == 16 * q + r;
    if r >= 8 { assert f == 8 * (2 * q + 1) + (r - 8); } else { assert f == 8 * (2 * q) + r; }
  }

  lemma Bit4(f: byte)
    ensures (HasBit(f, 4) <==> f % 8 >= 4) && f % 4 == f % 8 - Bit(f % 8 >= 4, 4)
  {
    var q, r := f / 8, f % 8;
    assert f == 8 * q + r;
    if r >= 4 { assert f == 4 * (2 * q + 1) + (r - 4); } else { assert f == 4 * (2 * q) + r; }
  }

  lemma Bit2(f: byte)
    ensures (HasBit(f, 2) <==> f % 4 >= 2) && f % 2 == f % 4 - Bit(f % 4 >= 2, 2)
  {
    var q, r := f / 4, f % 4;
    assert f == 4 * q + r;
    if r >= 2 { assert f == 2 * (2 * q + 1) + (r - 2); } else { assert f == 2 * (2 * q) + r; }
  }

  lemma FlagsAt(h: TcpHeader, f: byte)
    ensures WithFlags(h, f) == h.(urg := HasBit(f, 32), ack := HasBit(f, 16), psh := HasBit(f, 8),
                                  rst := HasBit(f, 4), syn := HasBit(f, 2), fin := HasBit(f, 1))
  {
    Bit32(f);
    Bit16(f);
    Bit8(f);
    Bit4(f);
    Bit2(f);
    assert LowSix(f) == f % 64;
  }

  /** The header that is read off twenty bytes or more. */
  function HeaderAt(b: seq<byte>): TcpHeader
    requires |b| >= 20
  {
    TcpHeader(U16At(b, 0), U16At(b, 2), U32At(b, 4), U32At(b, 8), b[12] / 16,
              HasBit(b[13], 32), HasBit(b[13], 16), HasBit(b[13], 8), HasBit(b[13], 4), HasBit(b[13], 2),
              HasBit(b[13], 1), U16At(b, 14), U16At(b, 16), U16At(b, 18))
  }

  lemma AssembledAt(b: seq<byte>, f: Front, k: Back)
    requires |b| >= 20 && f == Front(U16At(b, 0), U16At(b, 2), U32At(b, 4), U32At(b, 8), Parser(b[12..], NoError))
    requires k == Back(b[12], b[13], U16At(b, 14), U16At(b, 16), U16At(b, 18), Parser(b[20..], NoError))
    ensures Assembled(f, k).0 == HeaderAt(b)
  {
    FlagsAt(TcpHeader(f.sport, f.dport, f.seqno, f.ackno, k.doff / 16, false, false, false, false, false, false,
                      k.win, k.cksum, k.uptr), k.flags);
  }

  lemma DropAgain(b: seq<byte>, n: nat)
    requires 20 + n <= |b|
    ensures b[20..][n..] == b[20 + n..]
  {
  }

  /** What is left for the payload, and the error, when the header is whole. */
  lemma RestAt(b: seq<byte>, f: Front, k: Back)
    requires |b| >= 20 && Assembled(f, k).0 == HeaderAt(b) && k.rest == Parser(b[20..], NoError)
    ensures var p, n := Assembled(f, k).1, 4 * (b[12] / 16);
            if n > |b| then p.error == PacketTooShort
            else p == Parser(b[Max(20, n)..], NoError)
  {
    var n := 4 * (b[12] / 16);
    if 20 <= n <= |b| { DropAgain(b, n - 20); }
  }

  lemma IntError(p: Parser, n: nat)
    requires p.error in {NoError, PacketTooShort}
    ensures var q := p.Int(n).1;
            && q.error in {NoError, PacketTooShort}
            && (q.error == NoError ==> p.error == NoError && |q.buffer| == |p.buffer| - n)
  {
  }

  lemma ShortFront(p: Parser)
    requires p.error in {NoError, PacketTooShort}
    ensures var q := ParseFront(p).rest;
            && q.error in {NoError, PacketTooShort}
            && (q.error == NoError ==> p.error == NoError && |q.buffer| == |p.buffer| - 12)
  {
    var p1 := p.Int(2).1;
    var p2 := p1.Int(2).1;
    var p3 := p2.Int(4).1;
    IntError(p, 2);
    IntError(p1, 2);
    IntError(p2, 4);
    IntError(p3, 4);
  }

  lemma ShortBack(p: Parser)
    requires p.error in {NoError, PacketTooShort}
    ensures var q := ParseBack(p).rest;
            && q.error in {NoError, PacketTooShort}
            && (q.error == NoError ==> p.error == NoError && |q.buffer| == |p.buffer| - 8)
  {
    var p1 := p.Int(1).1;
    var p2 := p1.Int(1).1;
    var p3 := p2.Int(2).1;
    var p4 := p3.Int(2).1;
    IntError(p, 1);
    IntError(p1, 1);
    IntError(p2, 2);
    IntError(p3, 2);
    IntError(p4, 2);
  }

  lemma ShortHeader(b: seq<byte>)
    requires |b| < 20
    ensures ParseHeader(Parser(b, NoError)).1.error == PacketTooShort
  {
    ShortFront(Parser(b, NoError));
    ShortBack(ParseFront(Parser(b, NoError)).rest);
  }

  /** The header parser, for any bytes: the fields at their offsets, and the payload after as many words as the data
      offset says, but after twenty bytes at least; or too short a packet. */
  lemma ParsedHeader(b: seq<byte>)
    ensures var (h, p, _) := ParseHeader(Parser(b, NoError));
            if |b| < 20 || 4 * (b[12] / 16) > |b| then p.error == PacketTooShort
            else h == HeaderAt(b) && p == Parser(b[Max(20, 4 * (b[12] / 16))..], NoError)
  {
    if |b| < 20 {
      ShortHeader(b);
    } else {
      FrontAt(b);
      BackAt(b);
      var f, k := ParseFront(Parser(b, NoError)), ParseBack(Parser(b[12..], NoError));
      AssembledAt(b, f, k);
      RestAt(b, f, k);
    }
  }

  /** The bytes and the pseudo-header add up to a positive multiple of 65535. */
  predicate SumChecks(bytes: seq<byte>, pseudo: nat)
  {
    var sum := pseudo + WordSum(bytes, false);
    sum > 0 && sum % 65535 == 0
  }

  lemma TestIsSum(bytes: seq<byte>, pseudo: u32)
    requires pseudo <= 0x10_0000 && |bytes| <= 0xffff
    ensures Complement(Trunc32(Summed(pseudo, bytes))) == 0 <==> SumChecks(bytes, pseudo)
  {
    SummedFits(pseudo, bytes);
    ChecksIff(Summed(pseudo, bytes));
  }

  /** The segment parser, for any bytes of a datagram: a bad checksum exactly if the one's complement sum is not a
      positive multiple of 65535; else too short a packet exactly if the header is not whole; else the segment. */
  lemma SegmentVerdict(b: seq<byte>, pseudo: u32)
    requires pseudo <= 0x10_0000 && |b| <= 0xffff
    ensures var (seg, r) := ParseSegment(b, pseudo);
            if !SumChecks(b, pseudo) then r == BadChecksum
            else if |b| < 20 || 4 * (b[12] / 16) > |b| then r == PacketTooShort
            else r == NoError && seg == TcpSegment(HeaderAt(b), b[Max(20, 4 * (b[12] / 16))..])
  {
    TestIsSum(b, pseudo);
    ParsedHeader(b);
  }
}
