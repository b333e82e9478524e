/** Integers in network byte order: a parser that consumes a buffer, and its inverse. */
module NetParser {
  import opened Machine

  datatype ParseResult =
    NoError | BadChecksum | PacketTooShort | WrongIPVersion | HeaderTooShort | TruncatedPacket

  /** What the bytes stand for, the most significant first. */
  function Number(bytes: seq<byte>): nat
  {
    if bytes == [] then 0 else Number(bytes[..|bytes| - 1]) * 256 + bytes[|bytes| - 1]
  }

  /** The number in the given count of bytes. */
  function Bytes(val: nat, count: nat): (b: seq<byte>)
    ensures |b| == count
  {
    if count == 0 then [] else Bytes(val / 256, count - 1) + [val % 256]
  }

  /** The least number that does not fit in the given count of bytes. */
  function Limit(count: nat): nat { if count == 0 then 1 else 256 * Limit(count - 1) }

  lemma {:induction false} LimitPositive(count: nat)
    ensures Limit(count) > 0
  {
    if count > 0 { LimitPositive(count - 1); }
  }

  lemma {:induction false} NumberBound(bytes: seq<byte>)
    ensures Number(bytes) < Limit(|bytes|)
  {
    if bytes != [] { NumberBound(bytes[..|bytes| - 1]); }
  }

  /** The two are inverse. */
  lemma {:induction false} NumberOfBytes(val: nat, count: nat)
    requires val < Limit(count)
    ensures Number(Bytes(val, count)) == val
  {
    if count > 0 {
      NumberOfBytes(val / 256, count - 1);
      var b := Bytes(val, count);
      assert b[..|b| - 1] == Bytes(val / 256, count - 1);
    }
  }

  datatype Parser = Parser(buffer: seq<byte>, error: ParseResult)
  {
    function CheckSize(n: nat): Parser { if n > |buffer| then this.(error := PacketTooShort) else this }

    /** Consumes the given count of bytes; the value is zero after an error. */
    function Int(count: nat): (r: (nat, Parser))
      ensures r.0 < Limit(count)
    {
      var p := CheckSize(count);
      LimitPositive(count);
      if p.error != NoError then (0, p) else
      NumberBound(buffer[..count]);
      (Number(buffer[..count]), p.(buffer := buffer[count..]))
    }

    function RemovePrefix(n: nat): Parser
    {
      var p := CheckSize(n);
      if p.error != NoError then p else p.(buffer := buffer[n..])
    }
  }

  /** Reading back a number that was written. */
  lemma IntOfBytes(val: nat, count: nat, rest: seq<byte>)
    requires val < Limit(count)
    ensures Parser(Bytes(val, count) + rest, NoError).Int(count) == (val, Parser(rest, NoError))
  {
    NumberOfBytes(val, count);
    assert (Bytes(val, count) + rest)[..count] == Bytes(val, count);
    assert (Bytes(val, count) + rest)[count..] == rest;
  }

  class NetParser {
    var buffer: seq<byte>
    var error: ParseResult

    ghost function View(): Parser
      reads this
    {
      Parser(buffer, error)
    }

    constructor (buffer: seq<byte>)
      ensures View() == Parser(buffer, NoError)
    {
      this.buffer, error := buffer, NoError;
    }

    method ParseInt(count: nat) returns (val: nat)
      modifies this
      ensures (val, View()) == old(View()).Int(count)
    {
      if count > |buffer| {
        error := PacketTooShort;
      }
      if error != NoError {
        return 0;
      }
      val := 0;
      for i := 0 to count
        invariant val == Number(buffer[..i])
      {
        assert buffer[..i + 1][..i] == buffer[..i];
        val := val * 256 + buffer[i];
      }
      buffer := buffer[count..];
    }

    method RemovePrefix(n: nat)
      modifies this
      ensures View() == old(View()).RemovePrefix(n)
    {
      if n > |buffer| {
        error := PacketTooShort;
      }
      if error != NoError {
        return;
      }
      buffer := buffer[n..];
    }
  }

  /** Appends a number in network byte order, the high byte first. */
  method UnparseInt(s: seq<byte>, val: nat, count: nat) returns (t: seq<byte>)
    ensures t == s + Bytes(val, count)
  {
    t := s;
    assert t == s + Bytes(Shifted(val, count), 0);
    for i := 0 to count
      invariant t == s + Bytes(Shifted(val, count - i), i)
    {
      ghost var done := Shifted(val, count - i);
      assert Shifted(val, count - i - 1) / 256 == done by { ShiftedStep(val, count - i - 1); }
      var theByte := Shifted(val, count - i - 1) % 256;
      t := t + [theByte];
    }
  }

  /** `val` shifted right by the given count of bytes. */
  function Shifted(val: nat, count: nat): nat { if count == 0 then val else Shifted(val / 256, count - 1) }

  lemma {:induction false} ShiftedStep(val: nat, count: nat)
    ensures Shifted(val, count + 1) == Shifted(val, count) / 256
  {
    if count > 0 { ShiftedStep(val / 256, count - 1); }
  }
}
