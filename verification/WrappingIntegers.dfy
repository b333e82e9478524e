/** 32-bit sequence numbers relative to an initial sequence number, and their conversion to and from
    absolute 64-bit ones (section 3.3 of RFC 793). */
module WrappingIntegers {
  import opened Machine

  /** The 64-bit sum is taken modulo 2^32, which makes its own overflow invisible. */
  function Wrap(n: nat, isn: u32): (w: u32)
  {
    Trunc32(isn + n)
  }

  /** The distance of `n` from the initial sequence number, modulo 2^32. */
  function Offset(n: u32, isn: u32): u32
  {
    Trunc32(n - isn)
  }

  /** The member of the class of `offset` in the `m`-th block of 2^32 numbers. */
  function Member(offset: u32, m: int): u64
    requires -1 <= m <= 0x1_0000_0000
  {
    Trunc64(offset + 0x1_0000_0000 * m)
  }

  /** The choice among blocks k-1, k and k+1, in 64-bit arithmetic. */
  function Select(offset: u32, k: int, checkpoint: u64): u64
    requires 0 <= k < 0x1_0000_0000
  {
    if checkpoint <= offset then
      offset
    else if Member(offset, k) > Trunc64(checkpoint + 0x8000_0000) then
      Member(offset, k - 1)
    else if Trunc64(offset + 0x1_0000_0000 * k + 0x8000_0000) < checkpoint then
      Member(offset, k + 1)
    else
      Member(offset, k)
  }

  /** How many times 2^32 goes into `x`. */
  function Block(x: u64): (k: int)
    ensures 0 <= k && 0x1_0000_0000 * k <= x
  {
    if x < 0x1_0000_0000 then 0 else 1 + Block(x - 0x1_0000_0000)
  }

  function Unwrap(n: u32, isn: u32, checkpoint: u64): (abs: u64)
  {
    Select(Offset(n, isn), Block(checkpoint), checkpoint)
  }

  function Distance(a: int, b: int): nat
  {
    if a <= b then b - a else a - b
  }

  /** `v` is a 64-bit sequence number that wraps to `n`, and none is closer to the checkpoint. */
  ghost predicate IsNearest(n: u32, isn: u32, checkpoint: u64, v: u64)
  {
    && Wrap(v, isn) == n
    && forall w: u64 :: Wrap(w, isn) == n ==> Distance(v, checkpoint) <= Distance(w, checkpoint)
  }

  /** The additions in the guards of `Select` stay below 2^64, as far as they are evaluated. */
  predicate SelectFits(offset: int, k: int, checkpoint: int)
  {
    && checkpoint + 0x8000_0000 < 0x1_0000_0000_0000_0000
    && (offset + 0x1_0000_0000 * k <= checkpoint + 0x8000_0000 ==>
          offset + 0x1_0000_0000 * k + 0x8000_0000 < 0x1_0000_0000_0000_0000)
  }

  predicate GuardsFit(n: u32, isn: u32, checkpoint: u64)
  {
    SelectFits(Offset(n, isn), Block(checkpoint), checkpoint)
  }

  /** The numbers that wrap to `n` are exactly the offset plus a multiple of 2^32. */
  lemma WrapClass(v: u64, n: u32, isn: u32)
    ensures Wrap(v, isn) == n <==> v % 0x1_0000_0000 == Offset(n, isn)
  {
    Euclid(v);
    Trunc32IsMod(isn + v);
    Trunc32IsMod(n - isn);
    assert Wrap(v, isn) == (isn + v % 0x1_0000_0000) % 0x1_0000_0000;
  }

  /** Two members of the class differ by a multiple of 2^32. */
  lemma SameClass(v: u64, w: u64, n: u32, isn: u32)
    requires Wrap(v, isn) == n && Wrap(w, isn) == n
    ensures v == w + 0x1_0000_0000 * (v / 0x1_0000_0000 - w / 0x1_0000_0000)
  {
    WrapClass(v, n, isn);
    WrapClass(w, n, isn);
    Euclid(v);
    Euclid(w);
  }

  lemma Euclid(x: int)
    ensures x == 0x1_0000_0000 * (x / 0x1_0000_0000) + x % 0x1_0000_0000
  {
  }

  lemma MemberClass(offset: u32, m: int)
    requires -1 <= m <= 0x1_0000_0000
    ensures Member(offset, m) % 0x1_0000_0000 == offset
    ensures 0 <= m < 0x1_0000_0000 ==> Member(offset, m) == offset + 0x1_0000_0000 * m
  {
    var j := if m < 0 then m + 0x1_0000_0000 else if m < 0x1_0000_0000 then m else m - 0x1_0000_0000;
    assert Member(offset, m) == offset + 0x1_0000_0000 * j;
  }

  /** Whatever the checkpoint, the result wraps back to `n`. */
  lemma UnwrapWraps(n: u32, isn: u32, checkpoint: u64)
    ensures Wrap(Unwrap(n, isn, checkpoint), isn) == n
  {
    var offset, k := Offset(n, isn), Block(checkpoint);
    WrapClass(Unwrap(n, isn, checkpoint), n, isn);
    MemberClass(offset, k - 1);
    MemberClass(offset, k);
    MemberClass(offset, k + 1);
  }

  /** What `Unwrap` chooses when no addition overflows: block k-1, k or k+1. */
  function Choice(offset: int, k: int, checkpoint: int): int
  {
    if checkpoint <= offset then offset
    else if offset + 0x1_0000_0000 * k > checkpoint + 0x8000_0000 then offset + 0x1_0000_0000 * (k - 1)
    else if offset + 0x1_0000_0000 * k + 0x8000_0000 < checkpoint then offset + 0x1_0000_0000 * (k + 1)
    else offset + 0x1_0000_0000 * k
  }

  /** `k` is the block of `checkpoint`. */
  predicate InBlock(k: int, checkpoint: int)
  {
    0 <= k < 0x1_0000_0000 && 0 <= checkpoint - 0x1_0000_0000 * k < 0x1_0000_0000
  }

  lemma SelectIsChoice(offset: u32, k: int, checkpoint: u64)
    requires InBlock(k, checkpoint) && SelectFits(offset, k, checkpoint)
    ensures Select(offset, k, checkpoint) == Choice(offset, k, checkpoint)
  {
  }

  /** When a guard overflows, a whole block is skipped although the same block holds a closer number. */
  lemma SelectMisses(offset: u32, k: int, checkpoint: u64)
    requires InBlock(k, checkpoint) && !SelectFits(offset, k, checkpoint)
    ensures Distance(offset + 0x1_0000_0000 * k, checkpoint) < Distance(Select(offset, k, checkpoint), checkpoint)
  {
  }

  lemma {:induction false} BlockOf(x: u64, k: int)
    requires k == Block(x)
    ensures InBlock(k, x) && k == x / 0x1_0000_0000
  {
    if x >= 0x1_0000_0000 { BlockOf(x - 0x1_0000_0000, k - 1); }
  }

  /** The chosen member is within half the number space, or it is the smallest of its class. */
  lemma ChoiceIsClose(offset: int, k: int, checkpoint: int)
    requires 0 <= offset < 0x1_0000_0000 && InBlock(k, checkpoint)
    ensures var v := Choice(offset, k, checkpoint);
            Distance(v, checkpoint) <= 0x8000_0000 || checkpoint < v < 0x1_0000_0000
  {
  }

  /** Nothing in the class of a close number is closer. */
  lemma CloseIsNearest(v: int, w: int, difference: int, checkpoint: int)
    requires 0 <= v && 0 <= w && v == w + 0x1_0000_0000 * difference
    requires Distance(v, checkpoint) <= 0x8000_0000 || checkpoint < v < 0x1_0000_0000
    ensures Distance(v, checkpoint) <= Distance(w, checkpoint)
    ensures Distance(w, checkpoint) < 0x8000_0000 ==> v == w
  {
  }

  lemma UnwrapVersus(n: u32, isn: u32, checkpoint: u64, w: u64)
    requires GuardsFit(n, isn, checkpoint) && Wrap(w, isn) == n
    ensures var v := Unwrap(n, isn, checkpoint);
            && Distance(v, checkpoint) <= Distance(w, checkpoint)
            && (Distance(w, checkpoint) < TWO31 ==> v == w)
  {
    var v, offset, k := Unwrap(n, isn, checkpoint), Offset(n, isn), Block(checkpoint);
    BlockOf(checkpoint, k);
    SelectIsChoice(offset, k, checkpoint);
    ChoiceIsClose(offset, k, checkpoint);
    UnwrapWraps(n, isn, checkpoint);
    SameClass(v, w, n, isn);
    CloseIsNearest(v, w, v / 0x1_0000_0000 - w / 0x1_0000_0000, checkpoint);
  }

  lemma OverflowMisses(n: u32, isn: u32, checkpoint: u64)
    requires !GuardsFit(n, isn, checkpoint)
    ensures !IsNearest(n, isn, checkpoint, Unwrap(n, isn, checkpoint))
  {
    var offset, k := Offset(n, isn), Block(checkpoint);
    BlockOf(checkpoint, k);
    MemberClass(offset, k);
    WrapClass(Member(offset, k), n, isn);
    SelectMisses(offset, k, checkpoint);
  }

  /** `Unwrap` returns a nearest number exactly when its guards do not overflow. */
  lemma UnwrapNearest(n: u32, isn: u32, checkpoint: u64)
    ensures IsNearest(n, isn, checkpoint, Unwrap(n, isn, checkpoint)) <==> GuardsFit(n, isn, checkpoint)
  {
    if GuardsFit(n, isn, checkpoint) {
      UnwrapWraps(n, isn, checkpoint);
      forall w: u64 | Wrap(w, isn) == n
        ensures Distance(Unwrap(n, isn, checkpoint), checkpoint) <= Distance(w, checkpoint)
      {
        UnwrapVersus(n, isn, checkpoint, w);
      }
    } else {
      OverflowMisses(n, isn, checkpoint);
    }
  }

  /** A number less than half the space away from the checkpoint survives wrapping. */
  lemma UnwrapWrap(x: u64, isn: u32, checkpoint: u64)
    requires Distance(x, checkpoint) < TWO31
    requires x + TWO31 < TWO64 && checkpoint + TWO31 < TWO64
    ensures Unwrap(Wrap(x, isn), isn, checkpoint) == x
  {
    var n := Wrap(x, isn);
    WrapClass(x, n, isn);
    BlockOf(x, Block(x));
    BlockOf(checkpoint, Block(checkpoint));
    UnwrapVersus(n, isn, checkpoint, x);
  }
}
