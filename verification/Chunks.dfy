/** The out-of-order store of the reassembler: an ordered map from position to string, kept as the sequence
    of its entries in key order, and the map from position to byte that it stands for. */
module Chunks {
  import opened Machine
  import opened Assembly

  datatype Chunk = Chunk(start: nat, data: seq<byte>)

  function End(c: Chunk): nat { c.start + |c.data| }

  /** Chunks in order, none empty, with a gap of at least one position between neighbours. */
  ghost predicate Apart(buf: seq<Chunk>)
  {
    && (forall i :: 0 <= i < |buf| ==> |buf[i].data| > 0)
    && (forall i, j {:trigger End(buf[i]), buf[j].start} :: 0 <= i < j < |buf| ==> End(buf[i]) < buf[j].start)
  }

  ghost predicate Covers(buf: seq<Chunk>, i: int, p: nat)
  {
    0 <= i < |buf| && buf[i].start <= p < End(buf[i])
  }

  ghost function Positions(buf: seq<Chunk>): set<nat>
  {
    set i, p: nat | 0 <= i < |buf| && buf[i].start <= p < End(buf[i]) && Covers(buf, i, p) :: p
  }

  ghost function ByteAt(buf: seq<Chunk>, p: nat): byte
    requires exists i :: Covers(buf, i, p)
  {
    var i :| Covers(buf, i, p);
    buf[i].data[p - buf[i].start]
  }

  /** The bytes the chunks stand for. */
  ghost function Bytes(buf: seq<Chunk>): (m: map<nat, byte>)
    ensures m.Keys == Positions(buf)
  {
    map p | p in Positions(buf) :: ByteAt(buf, p)
  }

  lemma BytesAt(buf: seq<Chunk>, i: int, p: nat)
    requires Apart(buf) && Covers(buf, i, p)
    ensures p in Bytes(buf) && Bytes(buf)[p] == buf[i].data[p - buf[i].start]
  {
    assert forall j :: Covers(buf, j, p) ==> i == j;
  }

  /** The number of bytes in the first `n` chunks. */
  function LengthOf(buf: seq<Chunk>, n: nat): nat
    requires n <= |buf|
  {
    if n == 0 then 0 else LengthOf(buf, n - 1) + |buf[n - 1].data|
  }

  function TotalLength(buf: seq<Chunk>): nat { LengthOf(buf, |buf|) }

  /** Stretches of equal chunks have equal length, wherever they are. */
  lemma {:induction false} LengthShift(a: seq<Chunk>, b: seq<Chunk>, i: nat, j: nat, shift: int)
    requires i <= j <= |a| && 0 <= i + shift && j + shift <= |b|
    requires forall k :: i <= k < j ==> a[k] == b[k + shift]
    ensures LengthOf(a, j) - LengthOf(a, i) == LengthOf(b, j + shift) - LengthOf(b, i + shift)
  {
    if i < j { LengthShift(a, b, i, j - 1, shift); }
  }

  lemma {:induction false} LengthMonotone(buf: seq<Chunk>, m: nat, n: nat)
    requires m <= n <= |buf|
    ensures LengthOf(buf, m) <= LengthOf(buf, n)
  {
    if m < n { LengthMonotone(buf, m, n - 1); }
  }

  lemma {:induction false} LengthBound(buf: seq<Chunk>, n: nat, from: nat)
    requires Apart(buf) && n <= |buf|
    requires forall i :: 0 <= i < |buf| ==> from <= buf[i].start
    ensures n > 0 ==> LengthOf(buf, n) <= End(buf[n - 1]) - from
  {
    if n > 1 {
      LengthBound(buf, n - 1, from);
      assert End(buf[n - 2]) < buf[n - 1].start;
    }
  }

  lemma PositionsLast(buf: seq<Chunk>, n: nat)
    requires Apart(buf) && 0 < n <= |buf|
    ensures Positions(buf[..n]) == Positions(buf[..n - 1]) + Span(buf[n - 1].start, |buf[n - 1].data|)
    ensures Positions(buf[..n - 1]) !! Span(buf[n - 1].start, |buf[n - 1].data|)
  {
    var all, init, last := buf[..n], buf[..n - 1], Span(buf[n - 1].start, |buf[n - 1].data|);
    forall p: nat
      ensures p in Positions(all) <==> p in Positions(init) || p in last
      ensures p in Positions(init) ==> p !in last
    {
      assert forall i :: Covers(init, i, p) ==> Covers(all, i, p) && p < buf[n - 1].start;
      assert forall i :: Covers(all, i, p) ==> i == n - 1 || Covers(init, i, p);
      assert p in last ==> Covers(all, n - 1, p);
    }
  }

  lemma DisjointSize(a: set<nat>, b: set<nat>)
    requires a !! b
    ensures |a + b| == |a| + |b|
  {
  }

  lemma PositionsGrow(buf: seq<Chunk>, n: nat)
    requires Apart(buf) && 0 < n <= |buf|
    ensures |Positions(buf[..n])| == |Positions(buf[..n - 1])| + |buf[n - 1].data|
  {
    PositionsLast(buf, n);
    SpanSize(buf[n - 1].start, |buf[n - 1].data|);
    DisjointSize(Positions(buf[..n - 1]), Span(buf[n - 1].start, |buf[n - 1].data|));
  }

  lemma {:induction false} PositionsCount(buf: seq<Chunk>, n: nat)
    requires Apart(buf) && n <= |buf|
    ensures |Positions(buf[..n])| == LengthOf(buf, n)
  {
    if n > 0 {
      PositionsCount(buf, n - 1);
      PositionsGrow(buf, n);
    }
  }

  /** The chunks hold as many bytes as they cover positions: none is stored twice. */
  lemma TotalLengthIsCount(buf: seq<Chunk>)
    requires Apart(buf)
    ensures TotalLength(buf) == |Bytes(buf)|
  {
    PositionsCount(buf, |buf|);
    assert buf[..|buf|] == buf;
    assert |Bytes(buf)| == |Bytes(buf).Keys|;
  }

  /** Adds an entry, unless the key is taken. */
  function Insert(buf: seq<Chunk>, c: Chunk): seq<Chunk>
  {
    if buf == [] || c.start < buf[0].start then [c] + buf
    else if c.start == buf[0].start then buf
    else [buf[0]] + Insert(buf[1..], c)
  }

  function Erase(buf: seq<Chunk>, start: nat): seq<Chunk>
  {
    if buf == [] then []
    else if buf[0].start == start then buf[1..]
    else [buf[0]] + Erase(buf[1..], start)
  }

  lemma {:induction false} InsertMiddle(a: seq<Chunk>, c: Chunk, b: seq<Chunk>)
    requires forall i :: 0 <= i < |a| ==> a[i].start < c.start
    requires b != [] ==> c.start < b[0].start
    ensures Insert(a + b, c) == a + [c] + b
  {
    if a == [] {
      assert a + b == b;
    } else {
      InsertMiddle(a[1..], c, b);
      assert (a + b)[1..] == a[1..] + b;
    }
  }

  lemma {:induction false} EraseMiddle(a: seq<Chunk>, c: Chunk, b: seq<Chunk>)
    requires forall i :: 0 <= i < |a| ==> a[i].start < c.start
    ensures Erase(a + [c] + b, c.start) == a + b
  {
    var m := a + [c] + b;
    if a == [] {
      assert m[1..] == b == a + b;
    } else {
      EraseMiddle(a[1..], c, b);
      assert m[1..] == a[1..] + [c] + b;
    }
  }

  /** The concatenation of two touching strings; where they overlap, the bytes of the one that starts
      first win. */
  function MergeString(s1: seq<byte>, i1: nat, s2: seq<byte>, i2: nat): (s: seq<byte>)
  {
    if i1 < i2 && i1 + |s1| < i2 then []
    else if i2 < i1 && i2 + |s2| < i1 then []
    else if i1 <= i2 then
      var overlapped := i1 + |s1| - i2;
      if overlapped < |s2| then s1 + s2[overlapped..] else s1
    else
      var overlapped := i2 + |s2| - i1;
      if overlapped < |s1| then s2 + s1[overlapped..] else s2
  }

  ghost predicate Touches(c: Chunk, data: seq<byte>, index: nat)
  {
    End(c) >= index && c.start <= index + |data|
  }

  /** Chunks lo..hi are the ones that overlap or adjoin `data`. */
  ghost predicate TouchingRange(buf: seq<Chunk>, lo: int, hi: int, data: seq<byte>, index: nat)
  {
    && 0 <= lo <= hi <= |buf|
    && (forall i :: 0 <= i < lo ==> End(buf[i]) < index)
    && (forall i :: lo <= i < hi ==> Touches(buf[i], data, index))
    && (forall i :: hi <= i < |buf| ==> index + |data| < buf[i].start)
  }

  /** What the first and the last touching chunk and the data make together: the chunks between them are
      covered by the data. */
  function Spliced(first: Chunk, last: Chunk, data: seq<byte>, index: nat): Chunk
  {
    if index < first.start then
      Chunk(index, MergeString(data, index, last.data, last.start))
    else
      var s := MergeString(first.data, first.start, data, index);
      Chunk(first.start, MergeString(s, first.start, last.data, last.start))
  }

  /** The byte at `p`: the first chunk wins over the data if it starts no later, the data over the last. */
  ghost function SplicedByte(first: Chunk, last: Chunk, data: seq<byte>, index: nat, p: nat): byte
    requires Touches(first, data, index) && Touches(last, data, index)
    requires Min(index, first.start) <= p < Max(index + |data|, End(last))
    requires first == last || End(first) < last.start
  {
    if first.start <= index && p < End(first) then first.data[p - first.start]
    else if index <= p < index + |data| then data[p - index]
    else last.data[p - last.start]
  }

  /** `c` replaces the chunks lo..hi that touch the data. */
  ghost predicate Replaces(c: Chunk, buf: seq<Chunk>, lo: int, hi: int, data: seq<byte>, index: nat)
    requires Apart(buf) && TouchingRange(buf, lo, hi, data, index)
  {
    if lo == hi then c == Chunk(index, data) else
    var first, last := buf[lo], buf[hi - 1];
    && c.start == Min(index, first.start)
    && End(c) == Max(index + |data|, End(last))
    && forall p :: c.start <= p < End(c) ==> c.data[p - c.start] == SplicedByte(first, last, data, index, p)
  }

  /** What a merge of two touching strings covers, when the first starts no later. */
  lemma MergeStringAt(s1: seq<byte>, i1: nat, s2: seq<byte>, i2: nat, p: nat)
    requires i1 <= i2 <= i1 + |s1|
    ensures var s := MergeString(s1, i1, s2, i2);
            && i1 + |s| == Max(i1 + |s1|, i2 + |s2|)
            && (i1 <= p < i1 + |s| ==> s[p - i1] == if p < i1 + |s1| then s1[p - i1] else s2[p - i2])
  {
  }

  lemma SplicedAt(first: Chunk, last: Chunk, data: seq<byte>, index: nat, p: nat)
    requires Touches(first, data, index) && Touches(last, data, index) && |data| > 0
    requires first == last || End(first) < last.start
    ensures var c := Spliced(first, last, data, index);
            && c.start == Min(index, first.start) && End(c) == Max(index + |data|, End(last))
            && (c.start <= p < End(c) ==> c.data[p - c.start] == SplicedByte(first, last, data, index, p))
  {
    if index < first.start {
      MergeStringAt(data, index, last.data, last.start, p);
    } else {
      var s := MergeString(first.data, first.start, data, index);
      MergeStringAt(first.data, first.start, data, index, p);
      MergeStringAt(s, first.start, last.data, last.start, p);
    }
  }

  lemma SplicedReplaces(buf: seq<Chunk>, lo: int, hi: int, data: seq<byte>, index: nat)
    requires Apart(buf) && TouchingRange(buf, lo, hi, data, index) && |data| > 0 && lo < hi
    ensures Replaces(Spliced(buf[lo], buf[hi - 1], data, index), buf, lo, hi, data, index)
  {
    var first, last := buf[lo], buf[hi - 1];
    var c := Spliced(first, last, data, index);
    SplicedAt(first, last, data, index, 0);
    forall p | c.start <= p < End(c) ensures c.data[p - c.start] == SplicedByte(first, last, data, index, p) {
      SplicedAt(first, last, data, index, p);
    }
  }

  ghost function Splice(buf: seq<Chunk>, lo: int, hi: int, c: Chunk): seq<Chunk>
    requires 0 <= lo <= hi <= |buf|
  {
    buf[..lo] + [c] + buf[hi..]
  }

  ghost predicate Splices(c: Chunk, buf: seq<Chunk>, lo: int, hi: int, data: seq<byte>, index: nat)
  {
    && Apart(buf) && TouchingRange(buf, lo, hi, data, index) && |data| > 0
    && Replaces(c, buf, lo, hi, data, index)
  }

  /** `s` is `buf` with chunks lo..hi replaced by `c`, place by place. */
  ghost predicate IsSplice(s: seq<Chunk>, buf: seq<Chunk>, lo: int, hi: int, c: Chunk)
  {
    && 0 <= lo <= hi <= |buf| && |s| == lo + 1 + |buf| - hi && s[lo] == c
    && (forall i {:trigger s[i]} :: 0 <= i < lo ==> s[i] == buf[i])
    && (forall i {:trigger s[i]} :: lo < i < |s| ==> s[i] == buf[i + hi - lo - 1])
  }

  lemma SpliceIs(buf: seq<Chunk>, lo: int, hi: int, c: Chunk)
    requires 0 <= lo <= hi <= |buf|
    ensures IsSplice(Splice(buf, lo, hi, c), buf, lo, hi, c)
  {
  }

  lemma ApartSplice(s: seq<Chunk>, c: Chunk, buf: seq<Chunk>, lo: int, hi: int, data: seq<byte>, index: nat)
    requires Splices(c, buf, lo, hi, data, index) && IsSplice(s, buf, lo, hi, c)
    ensures Apart(s)
  {
    forall i, j | 0 <= i < j < |s| ensures End(s[i]) < s[j].start {}
  }

  lemma SpliceApart(c: Chunk, buf: seq<Chunk>, lo: int, hi: int, data: seq<byte>, index: nat)
    requires Splices(c, buf, lo, hi, data, index)
    ensures Apart(Splice(buf, lo, hi, c))
  {
    SpliceIs(buf, lo, hi, c);
    ApartSplice(Splice(buf, lo, hi, c), c, buf, lo, hi, data, index);
  }

  lemma BetweenChunks(buf: seq<Chunk>, k: nat, p: nat)
    requires k <= |buf|
    requires forall i :: 0 <= i < k ==> End(buf[i]) <= p
    requires forall i :: k <= i < |buf| ==> p < buf[i].start
    ensures p !in Bytes(buf)
  {
  }

  lemma OverlayKeeps(held: map<nat, byte>, data: seq<byte>, index: nat, p: nat)
    requires p in held
    requires !(index <= p < index + |data|) || AllHeld(held, index, p)
    ensures p in Overlay(held, data, index) && Overlay(held, data, index)[p] == held[p]
  {
  }

  lemma OverlayTakes(held: map<nat, byte>, data: seq<byte>, index: nat, p: nat, q: nat)
    requires index <= q <= p < index + |data| && q !in held
    ensures p in Overlay(held, data, index) && Overlay(held, data, index)[p] == data[p - index]
  {
  }

  lemma OverlayPastData(buf: seq<Chunk>, lo: int, hi: int, data: seq<byte>, index: nat, p: nat)
    requires Apart(buf) && TouchingRange(buf, lo, hi, data, index) && lo < hi
    requires index + |data| <= p < End(buf[hi - 1])
    ensures var m, last := Overlay(Bytes(buf), data, index), buf[hi - 1];
            p in m && last.start <= p && m[p] == last.data[p - last.start]
    ensures p < End(buf[lo]) ==> lo == hi - 1
  {
    BytesAt(buf, hi - 1, p);
    OverlayKeeps(Bytes(buf), data, index, p);
  }

  lemma OverlayInFirst(buf: seq<Chunk>, lo: int, hi: int, data: seq<byte>, index: nat, p: nat)
    requires Apart(buf) && TouchingRange(buf, lo, hi, data, index) && lo < hi
    requires buf[lo].start <= index && buf[lo].start <= p < End(buf[lo])
    ensures var m := Overlay(Bytes(buf), data, index);
            p in m && m[p] == buf[lo].data[p - buf[lo].start]
  {
    forall q | index <= q <= p ensures q in Bytes(buf) { BytesAt(buf, lo, q); }
    BytesAt(buf, lo, p);
    OverlayKeeps(Bytes(buf), data, index, p);
  }

  lemma OverlayInData(buf: seq<Chunk>, lo: int, hi: int, data: seq<byte>, index: nat, p: nat)
    requires Apart(buf) && TouchingRange(buf, lo, hi, data, index) && lo < hi
    requires index <= p < index + |data| && (buf[lo].start > index || End(buf[lo]) <= p)
    ensures var m := Overlay(Bytes(buf), data, index);
            p in m && m[p] == data[p - index]
  {
    if buf[lo].start > index {
      BetweenChunks(buf, lo, index);
      OverlayTakes(Bytes(buf), data, index, p, index);
    } else {
      BetweenChunks(buf, lo + 1, End(buf[lo]));
      OverlayTakes(Bytes(buf), data, index, p, End(buf[lo]));
    }
  }

  /** The overlay, in terms of the first and the last touching chunk. */
  lemma OverlayOfTouching(buf: seq<Chunk>, lo: int, hi: int, data: seq<byte>, index: nat, p: nat)
    requires Apart(buf) && TouchingRange(buf, lo, hi, data, index) && lo < hi
    requires Min(index, buf[lo].start) <= p < Max(index + |data|, End(buf[hi - 1]))
    ensures var m := Overlay(Bytes(buf), data, index);
            p in m && m[p] == SplicedByte(buf[lo], buf[hi - 1], data, index, p)
  {
    if buf[lo].start <= index && p < End(buf[lo]) {
      OverlayInFirst(buf, lo, hi, data, index, p);
    } else if index + |data| <= p {
      OverlayPastData(buf, lo, hi, data, index, p);
    } else {
      OverlayInData(buf, lo, hi, data, index, p);
    }
  }

  /** In the new chunk, the bytes are those of the overlay. */
  lemma InsideSplice(c: Chunk, buf: seq<Chunk>, lo: int, hi: int, data: seq<byte>, index: nat, p: nat)
    requires Splices(c, buf, lo, hi, data, index) && c.start <= p < End(c)
    ensures var m := Overlay(Bytes(buf), data, index);
            p in m && m[p] == c.data[p - c.start]
  {
    if lo == hi {
      BetweenChunks(buf, lo, index);
      OverlayTakes(Bytes(buf), data, index, p, index);
    } else {
      OverlayOfTouching(buf, lo, hi, data, index, p);
    }
  }

  /** Outside the new chunk, nothing is covered by the data or by a replaced chunk. */
  lemma OutsideSplice(c: Chunk, buf: seq<Chunk>, lo: int, hi: int, data: seq<byte>, index: nat, p: nat)
    requires Splices(c, buf, lo, hi, data, index) && !(c.start <= p < End(c))
    ensures !(index <= p < index + |data|)
    ensures forall i :: lo <= i < hi ==> !Covers(buf, i, p)
  {
    forall i | lo <= i < hi ensures !Covers(buf, i, p) {
      assert buf[lo].start <= buf[i].start && End(buf[i]) <= End(buf[hi - 1]);
    }
  }

  lemma SplicedFrom(s: seq<Chunk>, c: Chunk, buf: seq<Chunk>, lo: int, hi: int, i: int, p: nat)
    requires IsSplice(s, buf, lo, hi, c) && Apart(buf) && Apart(s)
    requires Covers(buf, i, p) && !(lo <= i < hi)
    ensures p in Bytes(s) && p in Bytes(buf) && Bytes(s)[p] == Bytes(buf)[p]
  {
    var j := if i < lo then i else i - hi + lo + 1;
    assert s[j] == buf[i];
    BytesAt(buf, i, p);
    BytesAt(s, j, p);
  }

  lemma SplicedInto(s: seq<Chunk>, c: Chunk, buf: seq<Chunk>, lo: int, hi: int, j: int, p: nat)
    requires IsSplice(s, buf, lo, hi, c) && Covers(s, j, p) && !(c.start <= p < End(c))
    ensures p in Bytes(buf)
  {
    assert Covers(buf, if j < lo then j else j + hi - lo - 1, p);
  }

  /** The chunks that stay cover the same positions with the same bytes. */
  lemma SpliceKeeps(s: seq<Chunk>, c: Chunk, buf: seq<Chunk>, lo: int, hi: int, p: nat)
    requires IsSplice(s, buf, lo, hi, c) && Apart(buf) && Apart(s)
    requires !(c.start <= p < End(c)) && forall i :: lo <= i < hi ==> !Covers(buf, i, p)
    ensures (p in Bytes(s) <==> p in Bytes(buf)) && (p in Bytes(s) ==> Bytes(s)[p] == Bytes(buf)[p])
  {
    if p in Bytes(buf) {
      var i :| Covers(buf, i, p);
      SplicedFrom(s, c, buf, lo, hi, i, p);
    } else if p in Bytes(s) {
      var j :| Covers(s, j, p);
      SplicedInto(s, c, buf, lo, hi, j, p);
      assert false;
    }
  }

  lemma SpliceOverlayAt(s: seq<Chunk>, c: Chunk, buf: seq<Chunk>, lo: int, hi: int, data: seq<byte>, index: nat, p: nat)
    requires Splices(c, buf, lo, hi, data, index) && IsSplice(s, buf, lo, hi, c) && Apart(s)
    ensures var m := Overlay(Bytes(buf), data, index);
            (p in Bytes(s) <==> p in m) && (p in Bytes(s) ==> Bytes(s)[p] == m[p])
  {
    if c.start <= p < End(c) {
      InsideSplice(c, buf, lo, hi, data, index, p);
      BytesAt(s, lo, p);
    } else {
      OutsideSplice(c, buf, lo, hi, data, index, p);
      SpliceKeeps(s, c, buf, lo, hi, p);
      if p in Bytes(buf) { OverlayKeeps(Bytes(buf), data, index, p); }
    }
  }

  /** Replacing the touching chunks by one chunk made of the first, the data and the last lays the data
      over the bytes held. */
  lemma SpliceOverlay(c: Chunk, buf: seq<Chunk>, lo: int, hi: int, data: seq<byte>, index: nat)
    requires Splices(c, buf, lo, hi, data, index)
    ensures Bytes(Splice(buf, lo, hi, c)) == Overlay(Bytes(buf), data, index)
  {
    var s := Splice(buf, lo, hi, c);
    SpliceIs(buf, lo, hi, c);
    SpliceApart(c, buf, lo, hi, data, index);
    OverlaySplice(s, c, buf, lo, hi, data, index);
  }

  lemma OverlaySplice(s: seq<Chunk>, c: Chunk, buf: seq<Chunk>, lo: int, hi: int, data: seq<byte>, index: nat)
    requires Splices(c, buf, lo, hi, data, index) && IsSplice(s, buf, lo, hi, c) && Apart(s)
    ensures Bytes(s) == Overlay(Bytes(buf), data, index)
  {
    var b, m := Bytes(s), Overlay(Bytes(buf), data, index);
    forall p: nat ensures (p in b <==> p in m) && (p in b ==> b[p] == m[p]) {
      SpliceOverlayAt(s, c, buf, lo, hi, data, index, p);
    }
  }
}
