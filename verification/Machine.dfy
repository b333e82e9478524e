/** The fixed-width integers of the engine, as ranges of `int`, with the truncation that an assignment
    to a narrower unsigned type performs, and the option type. */
module Machine {

  type byte = x: int | 0 <= x < 0x100
  type u16 = x: int | 0 <= x < 0x1_0000
  type u32 = x: int | 0 <= x < 0x1_0000_0000
  type u64 = x: int | 0 <= x < 0x1_0000_0000_0000_0000

  const TWO31: int := 0x8000_0000
  const TWO64: int := 0x1_0000_0000_0000_0000

  /** The low 16 bits, found by adding or subtracting 2^16 until the number fits. */
  function Trunc16(x: int): u16
    decreases if x < 0 then 0x1_0000 - x else x
  {
    if x < 0 then Trunc16(x + 0x1_0000) else if x < 0x1_0000 then x else Trunc16(x - 0x1_0000)
  }

  /** The low 32 bits. */
  function Trunc32(x: int): u32
    decreases if x < 0 then 0x1_0000_0000 - x else x
  {
    if x < 0 then Trunc32(x + 0x1_0000_0000) else if x < 0x1_0000_0000 then x else Trunc32(x - 0x1_0000_0000)
  }

  lemma ModShift(x: int)
    ensures (x + 0x1_0000_0000) % 0x1_0000_0000 == x % 0x1_0000_0000
  {
  }

  lemma {:induction false} Trunc32IsMod(x: int)
    ensures Trunc32(x) == x % 0x1_0000_0000
    decreases if x < 0 then 0x1_0000_0000 - x else x
  {
    if x < 0 {
      Trunc32IsMod(x + 0x1_0000_0000);
      ModShift(x);
    } else if x >= 0x1_0000_0000 {
      Trunc32IsMod(x - 0x1_0000_0000);
      ModShift(x - 0x1_0000_0000);
    }
  }

  /** The sum or difference of two 64-bit numbers. */
  function Trunc64(x: int): u64
    requires -0x1_0000_0000_0000_0000 <= x < 0x2_0000_0000_0000_0000
  {
    if x < 0 then x + 0x1_0000_0000_0000_0000
    else if x < 0x1_0000_0000_0000_0000 then x
    else x - 0x1_0000_0000_0000_0000
  }

  function Min(a: int, b: int): int { if a <= b then a else b }
  function Max(a: int, b: int): int { if a <= b then b else a }

  /** The elements of `s` from `from` up to `to`, as the sequence of its elements. */
  function Cut<T>(s: seq<T>, from: nat, to: nat): (r: seq<T>)
    requires from <= to <= |s|
    ensures |r| == to - from && forall i :: 0 <= i < |r| ==> r[i] == s[from + i]
  {
    seq(to - from, i requires 0 <= i < to - from => s[from + i])
  }

  lemma Assoc(a: seq<byte>, b: seq<byte>, c: seq<byte>)
    ensures a + b + c == a + (b + c)
  {
  }

  datatype Option<+T> = None | Some(value: T)
}
