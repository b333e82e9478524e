/** The Internet checksum: the one's complement sum of 16-bit words (sections 1 and 2 of RFC 1071). */
module InternetChecksum {
  import opened Machine

  /** The value of a byte in its 16-bit word: bytes at even places are the high ones. */
  function Weight(b: byte, odd: bool): nat { if odd then b else 256 * b }

  /** The sum of the 16-bit words of `data`, which starts at an odd place if `odd`. */
  function WordSum(data: seq<byte>, odd: bool): nat
  {
    if data == [] then 0 else Weight(data[0], odd) + WordSum(data[1..], !odd)
  }

  predicate OddAfter(odd: bool, n: nat) { odd != (n % 2 == 1) }

  /** It does not matter how the data is split among calls, as long as the parity is carried over. */
  lemma {:induction false} WordSumSplit(a: seq<byte>, b: seq<byte>, odd: bool)
    ensures WordSum(a + b, odd) == WordSum(a, odd) + WordSum(b, OddAfter(odd, |a|))
  {
    if a == [] {
      assert a + b == b;
    } else {
      WordSumSplit(a[1..], b, !odd);
      assert (a + b)[1..] == a[1..] + b;
    }
  }

  lemma {:induction false} WordSumBound(data: seq<byte>)
    ensures WordSum(data, false) <= 0xffff * ((|data| + 1) / 2)
  {
    if |data| == 1 {
      assert data[1..] == [];
    } else if |data| >= 2 {
      WordSumBound(data[2..]);
      assert data[1..][1..] == data[2..];
    }
  }

  /** Adds the carries back in until 16 bits are left. */
  function Fold(x: nat): nat
  {
    if x <= 0xffff then x else Fold(x / 0x1_0000 + x % 0x1_0000)
  }

  /** Folding keeps the value modulo 65535, and gives zero only for zero. */
  lemma {:induction false} FoldMod(x: nat)
    ensures Fold(x) <= 0xffff
    ensures Fold(x) % 0xffff == x % 0xffff
    ensures Fold(x) == 0 <==> x == 0
  {
    if x > 0xffff {
      var y := x / 0x1_0000 + x % 0x1_0000;
      FoldMod(y);
      FoldStep(x, x / 0x1_0000, x % 0x1_0000);
    }
  }

  lemma FoldStep(x: nat, h: nat, l: nat)
    requires x == 0x1_0000 * h + l
    ensures (h + l) % 0xffff == x % 0xffff
  {
    assert x == (h + l) + 0xffff * h;
    ModAdd(h + l, h);
  }

  lemma {:induction false} ModAdd(x: nat, k: nat)
    ensures (x + 0xffff * k) % 0xffff == x % 0xffff
  {
    if k > 0 {
      ModAdd(x, k - 1);
      assert x + 0xffff * k == (x + 0xffff * (k - 1)) + 0xffff;
    }
  }

  /** The checksum of data whose words add up to `sum`. */
  function Complement(sum: nat): u16
  {
    FoldMod(sum);
    0xffff - Fold(sum)
  }

  /** A sum checks, that is, its checksum is zero, exactly if it is a positive multiple of 65535. */
  lemma ChecksIff(sum: nat)
    ensures Complement(sum) == 0 <==> sum > 0 && sum % 0xffff == 0
  {
    FoldMod(sum);
  }

  /** With its own checksum added, every sum checks. */
  lemma ChecksumChecks(sum: nat)
    ensures Complement(sum + Complement(sum)) == 0
  {
    FoldMod(sum);
    var total := sum + Complement(sum);
    var q := sum / 0xffff;
    assert sum == 0xffff * q + sum % 0xffff;
    if Fold(sum) == 0xffff {
      assert total == 0xffff * q;
      ModAdd(0, q);
    } else {
      assert Fold(sum) == sum % 0xffff;
      assert total == 0xffff * (q + 1);
      ModAdd(0, q + 1);
    }
    ChecksIff(total);
  }

  class InternetChecksum {
    var sum: u32
    var odd: bool

    constructor (initialSum: u32)
      ensures sum == initialSum && !odd
    {
      sum, odd := initialSum, false;
    }

    /** Adds the words of `data`, in 32 bits. */
    method Add(data: seq<byte>)
      modifies this
      ensures odd == OddAfter(old(odd), |data|)
      ensures sum == Trunc32(old(sum) + WordSum(data, old(odd)))
    {
      ghost var start, parity := sum, odd;
      for i := 0 to |data|
        invariant odd == OddAfter(parity, i)
        invariant sum == Trunc32(start + WordSum(data[..i], parity))
      {
        WordSumSplit(data[..i], [data[i]], parity);
        assert data[..i + 1] == data[..i] + [data[i]];
        assert WordSum([data[i]], odd) == Weight(data[i], odd);
        TruncAdd(start + WordSum(data[..i], parity), Weight(data[i], odd));
        var val := Weight(data[i], odd);
        sum := Trunc32(sum + val);
        odd := !odd;
      }
      assert data[..|data|] == data;
    }

    method Value() returns (v: u16)
      ensures v == Complement(sum)
    {
      var ret: nat := sum;
      while ret > 0xffff
        invariant Fold(ret) == Fold(sum)
        decreases ret
      {
        ret := ret / 0x1_0000 + ret % 0x1_0000;
      }
      v := 0xffff - ret;
    }
  }

  lemma TruncAdd(x: nat, y: nat)
    ensures Trunc32(Trunc32(x) + y) == Trunc32(x + y)
  {
    Trunc32IsMod(x);
    Trunc32IsMod(x + y);
    Trunc32IsMod(Trunc32(x) + y);
    var q := x / 0x1_0000_0000;
    assert x + y == (Trunc32(x) + y) + 0x1_0000_0000 * q;
  }

  /** The checksum of one buffer. */
  method ChecksumOf(initial: u32, data: seq<byte>) returns (v: u16)
    ensures v == Complement(Trunc32(initial + WordSum(data, false)))
  {
    var check := new InternetChecksum(initial);
    check.Add(data);
    v := check.Value();
  }
}
