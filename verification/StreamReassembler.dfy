/** The stream reassembler as it is built: an ordered map of chunks over a byte stream. */
module StreamReassembler {
  import opened Machine
  import opened ByteStreams
  import opened Assembly
  import opened Chunks

  function Validate(expected: nat, room: nat, data: seq<byte>, index: nat, eof: bool): (v: Clipped)
  {
    var upper := expected + room;
    if room == 0 then Clipped([], 0, eof, true)
    else if |data| == 0 then Clipped([], 0, eof, true)
    else if index >= upper then Clipped([], 0, false, false)
    else if index + |data| <= expected then Clipped([], 0, false, false)
    else if index <= expected then
      if index + |data| > upper then
        Clipped(Cut(data, expected - index, expected - index + (upper - expected)), expected, false, true)
      else
        Clipped(Cut(data, expected - index, |data|), expected, eof, true)
    else if index + |data| > upper then
      Clipped(Cut(data, 0, upper - index), index, false, true)
    else
      Clipped(data, index, eof, true)
  }

  /** The counter update of `merge`, in which the inner difference may wrap below zero. */
  lemma CounterWraps(stored: u64, removed: nat, added: nat)
    requires removed <= stored && stored - removed + added < TWO64
    ensures Trunc64(stored - Trunc64(removed - added)) == stored - removed + added
  {
  }

  lemma SplicedHead(s: seq<Chunk>, buf: seq<Chunk>, lo: int, hi: int, c: Chunk)
    requires IsSplice(s, buf, lo, hi, c)
    ensures LengthOf(s, lo) == LengthOf(buf, lo)
  {
    LengthShift(buf, s, 0, lo, 0);
  }

  lemma SplicedShift(s: seq<Chunk>, buf: seq<Chunk>, lo: int, hi: int, c: Chunk, shift: int)
    requires IsSplice(s, buf, lo, hi, c) && shift == lo + 1 - hi
    ensures forall k :: hi <= k < |buf| ==> buf[k] == s[k + shift]
  {
  }

  lemma SplicedTail(s: seq<Chunk>, buf: seq<Chunk>, lo: int, hi: int, c: Chunk)
    requires IsSplice(s, buf, lo, hi, c)
    ensures TotalLength(s) - LengthOf(s, lo + 1) == TotalLength(buf) - LengthOf(buf, hi)
  {
    var shift := lo + 1 - hi;
    SplicedShift(s, buf, lo, hi, c, shift);
    LengthShift(buf, s, hi, |buf|, shift);
  }

  lemma SplicedLength(s: seq<Chunk>, buf: seq<Chunk>, lo: int, hi: int, c: Chunk)
    requires IsSplice(s, buf, lo, hi, c)
    ensures TotalLength(s) == TotalLength(buf) - (LengthOf(buf, hi) - LengthOf(buf, lo)) + |c.data|
  {
    SplicedHead(s, buf, lo, hi, c);
    SplicedTail(s, buf, lo, hi, c);
    assert LengthOf(s, lo + 1) == LengthOf(s, lo) + |s[lo].data|;
  }

  lemma SpliceLength(buf: seq<Chunk>, lo: int, hi: int, c: Chunk)
    requires 0 <= lo <= hi <= |buf|
    ensures LengthOf(buf, lo) <= LengthOf(buf, hi) <= TotalLength(buf)
    ensures TotalLength(Splice(buf, lo, hi, c)) == TotalLength(buf) - (LengthOf(buf, hi) - LengthOf(buf, lo)) + |c.data|
  {
    SpliceIs(buf, lo, hi, c);
    SplicedLength(Splice(buf, lo, hi, c), buf, lo, hi, c);
    LengthMonotone(buf, lo, hi);
    LengthMonotone(buf, hi, |buf|);
  }

  ghost predicate InWindow(buf: seq<Chunk>, from: nat, to: nat)
  {
    forall i :: 0 <= i < |buf| ==> from <= buf[i].start && End(buf[i]) <= to
  }

  lemma SpliceInWindow(c: Chunk, buf: seq<Chunk>, lo: int, hi: int, data: seq<byte>, index: nat, from: nat, to: nat)
    requires Splices(c, buf, lo, hi, data, index)
    requires InWindow(buf, from, to) && from <= index && index + |data| <= to
    ensures InWindow(Splice(buf, lo, hi, c), from, to)
  {
  }

  /** The chunks without those at lo..i. */
  ghost function Without(buf: seq<Chunk>, lo: int, i: int): seq<Chunk>
    requires 0 <= lo <= i <= |buf|
  {
    buf[..lo] + buf[i..]
  }

  lemma InsertSplices(buf: seq<Chunk>, lo: int, hi: int, c: Chunk)
    requires 0 <= lo <= hi <= |buf| && Apart(Splice(buf, lo, hi, c))
    ensures Insert(Without(buf, lo, hi), c) == Splice(buf, lo, hi, c)
  {
    var spliced := Splice(buf, lo, hi, c);
    assert spliced[lo] == c;
    forall i | 0 <= i < lo ensures buf[..lo][i].start < c.start { assert End(spliced[i]) < spliced[lo].start; }
    if hi < |buf| { assert End(spliced[lo]) < spliced[lo + 1].start; }
    InsertMiddle(buf[..lo], c, buf[hi..]);
  }

  /** With chunks lo..i gone, erasing the key of chunk `i` leaves chunks lo..i+1 gone. */
  lemma EraseStep(buf: seq<Chunk>, lo: int, i: int)
    requires Apart(buf) && 0 <= lo <= i < |buf|
    ensures Erase(Without(buf, lo, i), buf[i].start) == Without(buf, lo, i + 1)
  {
    assert buf[..lo] + buf[i..] == buf[..lo] + [buf[i]] + buf[i + 1..];
    forall k | 0 <= k < lo ensures buf[..lo][k].start < buf[i].start { assert End(buf[k]) < buf[i].start; }
    EraseMiddle(buf[..lo], buf[i], buf[i + 1..]);
  }

  lemma BytesOfNone()
    ensures Bytes([]) == map[]
  {
    assert Bytes([]).Keys == {};
  }

  lemma BytesInWindow(buf: seq<Chunk>, from: nat, to: nat)
    requires Apart(buf) && InWindow(buf, from, to)
    ensures forall p :: p in Bytes(buf) ==> from <= p < to
    ensures buf != [] && from < buf[0].start ==> forall p :: p in Bytes(buf) ==> from < p
  {
    forall p | p in Bytes(buf) ensures from <= p < to && (from < buf[0].start ==> from < p) {
      var i :| Covers(buf, i, p);
    }
  }

  /** If the first chunk is not due, nothing held is contiguous. */
  lemma FrontWaits(buf: seq<Chunk>, from: nat)
    requires Apart(buf) && (buf != [] ==> from < buf[0].start)
    ensures FirstGap(Bytes(buf).Keys, from) == from
    ensures From(Bytes(buf), from) == Bytes(buf)
  {
    forall i | 0 <= i < |buf| ensures from < buf[i].start { assert i > 0 ==> End(buf[0]) < buf[i].start; }
    BetweenChunks(buf, 0, from);
    forall p | p in Bytes(buf) ensures from <= p {
      var i :| Covers(buf, i, p);
    }
  }

  lemma FrontByte(buf: seq<Chunk>, p: nat)
    requires Apart(buf) && buf != [] && buf[0].start <= p < End(buf[0])
    ensures p in Bytes(buf) && Bytes(buf)[p] == buf[0].data[p - buf[0].start]
  {
    BytesAt(buf, 0, p);
  }

  lemma AfterFront(buf: seq<Chunk>)
    requires Apart(buf) && buf != []
    ensures End(buf[0]) !in Bytes(buf)
  {
    BetweenChunks(buf, 1, End(buf[0]));
  }

  /** If it is due, exactly the first chunk is contiguous. */
  lemma FrontDue(buf: seq<Chunk>)
    requires Apart(buf) && buf != []
    ensures var held, from, to := Bytes(buf), buf[0].start, End(buf[0]);
            && FirstGap(held.Keys, from) == to
            && Slice(held, from, to) == buf[0].data
  {
    var held, from, to := Bytes(buf), buf[0].start, End(buf[0]);
    forall p | from <= p < to ensures p in held && held[p] == buf[0].data[p - from] { FrontByte(buf, p); }
    AfterFront(buf);
    FirstGapUnique(held.Keys, from, to);
  }

  /** `rest` is `buf` without its first chunk, place by place. */
  ghost predicate IsRest(rest: seq<Chunk>, buf: seq<Chunk>)
  {
    |buf| == |rest| + 1 && forall i :: 0 <= i < |rest| ==> rest[i] == buf[i + 1]
  }

  lemma RestApart(rest: seq<Chunk>, buf: seq<Chunk>)
    requires Apart(buf) && IsRest(rest, buf)
    ensures Apart(rest)
  {
  }

  lemma InRest(rest: seq<Chunk>, buf: seq<Chunk>, j: int, p: nat)
    requires Apart(buf) && Apart(rest) && IsRest(rest, buf) && Covers(buf, j, p) && j > 0
    ensures p in Bytes(rest) && p in Bytes(buf) && Bytes(rest)[p] == Bytes(buf)[p] && End(buf[0]) <= p
  {
    assert Covers(rest, j - 1, p);
    BytesAt(buf, j, p);
    BytesAt(rest, j - 1, p);
  }

  lemma RestCovers(rest: seq<Chunk>, buf: seq<Chunk>, p: nat)
    requires IsRest(rest, buf) && p in Bytes(rest)
    ensures exists j :: Covers(buf, j, p) && j > 0
  {
    assert forall i :: Covers(rest, i, p) ==> Covers(buf, i + 1, p);
    var i :| Covers(rest, i, p);
  }

  lemma RestByte(rest: seq<Chunk>, buf: seq<Chunk>, p: nat)
    requires Apart(buf) && Apart(rest) && IsRest(rest, buf)
    ensures p in Bytes(rest) <==> p in Bytes(buf) && End(buf[0]) <= p
    ensures p in Bytes(rest) ==> Bytes(rest)[p] == Bytes(buf)[p]
  {
    if j :| Covers(buf, j, p) && j > 0 {
      InRest(rest, buf, j, p);
    } else if p in Bytes(rest) {
      RestCovers(rest, buf, p);
      assert false;
    }
  }

  lemma RestOfBytes(rest: seq<Chunk>, buf: seq<Chunk>)
    requires Apart(buf) && IsRest(rest, buf)
    ensures From(Bytes(buf), End(buf[0])) == Bytes(rest)
  {
    RestApart(rest, buf);
    var all, some := From(Bytes(buf), End(buf[0])), Bytes(rest);
    forall p: nat ensures (p in all <==> p in some) && (p in all ==> all[p] == some[p]) {
      RestByte(rest, buf, p);
    }
  }

  /** The four clipping branches take exactly the part of the substring that is in the window. */
  lemma ValidateClips(a: Assembly, data: seq<byte>, index: nat, eof: bool)
    requires a.Valid()
    ensures Validate(a.Written(), a.out.Room(), data, index, eof) == a.Clip(data, index, eof)
  {
  }

  lemma FlushWaits(a: Assembly, buf: seq<Chunk>)
    requires a.out.Valid() && forall p :: p in a.held ==> a.Written() <= p < a.Edge()
    requires Apart(buf) && a.held == Bytes(buf) && (buf != [] ==> a.Written() < buf[0].start)
    ensures a.Flush(a.held) == a
  {
    FrontWaits(buf, a.Written());
  }

  lemma FlushDue(a: Assembly, buf: seq<Chunk>)
    requires a.out.Valid() && forall p :: p in a.held ==> a.Written() <= p < a.Edge()
    requires Apart(buf) && a.held == Bytes(buf) && buf != [] && a.Written() == buf[0].start
    ensures |buf[0].data| <= a.out.Room() ==>
              a.Flush(a.held) == a.(out := a.out.Write(buf[0].data), held := Bytes(buf[1..]))
  {
    FrontDue(buf);
    RestOfBytes(buf[1..], buf);
  }

  ghost predicate StoreOk(buf: seq<Chunk>, from: nat, to: nat, stored: nat)
  {
    Apart(buf) && InWindow(buf, from, to) && stored == TotalLength(buf)
  }

  lemma RestLength(rest: seq<Chunk>, buf: seq<Chunk>)
    requires IsRest(rest, buf)
    ensures TotalLength(buf) == |buf[0].data| + TotalLength(rest)
  {
    LengthShift(buf, rest, 1, |buf|, -1);
    assert LengthOf(buf, 1) == |buf[0].data|;
  }

  lemma RestStored(rest: seq<Chunk>, buf: seq<Chunk>, from: nat, to: nat, stored: nat)
    requires StoreOk(buf, from, to, stored) && IsRest(rest, buf)
    ensures |buf[0].data| <= stored && End(buf[0]) <= to
    ensures StoreOk(rest, End(buf[0]), to, stored - |buf[0].data|)
    ensures rest != [] ==> End(buf[0]) < rest[0].start
  {
    RestApart(rest, buf);
    RestLength(rest, buf);
  }

  lemma PopFront(buf: seq<Chunk>, from: nat, to: nat, stored: nat)
    requires StoreOk(buf, from, to, stored) && buf != [] && buf[0].start == from
    ensures Erase(buf, from) == buf[1..] && |buf[0].data| <= stored && End(buf[0]) <= to
    ensures StoreOk(buf[1..], End(buf[0]), to, stored - |buf[0].data|)
    ensures buf[1..] != [] ==> End(buf[0]) < buf[1..][0].start
  {
    RestStored(buf[1..], buf, from, to, stored);
  }

  lemma NothingErased(buf: seq<Chunk>, lo: int)
    requires 0 <= lo <= |buf|
    ensures Without(buf, lo, lo) == buf
  {
  }

  /** `spliced`, which is `buf` with the chunks in `gone` replaced by `c`, holds the data laid over what `buf`
      holds, and as many bytes more as `c` has more than they. */
  ghost predicate HoldsMerged(spliced: seq<Chunk>, c: Chunk, buf: seq<Chunk>, gone: seq<Chunk>,
                              data: seq<byte>, index: nat, from: nat, to: nat)
  {
    && Apart(spliced) && InWindow(spliced, from, to)
    && Bytes(spliced) == Overlay(Bytes(buf), data, index)
    && TotalLength(gone) <= TotalLength(buf)
    && TotalLength(spliced) == TotalLength(buf) - TotalLength(gone) + |c.data| <= to - from
  }

  /** `part` is `buf[lo..hi]`, place by place. */
  ghost predicate IsPart(part: seq<Chunk>, buf: seq<Chunk>, lo: int, hi: int)
    requires 0 <= lo <= hi <= |buf|
  {
    |part| == hi - lo && forall k :: 0 <= k < hi - lo ==> part[k] == buf[k + lo]
  }

  lemma PartGrows(part: seq<Chunk>, buf: seq<Chunk>, lo: int, hi: int)
    requires 0 <= lo <= hi < |buf| && IsPart(part, buf, lo, hi)
    ensures IsPart(part + [buf[hi]], buf, lo, hi + 1)
  {
  }

  lemma PartLength(part: seq<Chunk>, buf: seq<Chunk>, lo: int, hi: int)
    requires 0 <= lo <= hi <= |buf| && IsPart(part, buf, lo, hi)
    ensures TotalLength(part) == LengthOf(buf, hi) - LengthOf(buf, lo)
  {
    LengthShift(part, buf, 0, hi - lo, lo);
  }

  lemma SpliceStored(c: Chunk, buf: seq<Chunk>, gone: seq<Chunk>, lo: int, hi: int, data: seq<byte>, index: nat,
                     from: nat, to: nat)
    requires Splices(c, buf, lo, hi, data, index) && IsPart(gone, buf, lo, hi)
    requires InWindow(buf, from, to) && from <= index && index + |data| <= to
    ensures HoldsMerged(Insert(Without(buf, lo, hi), c), c, buf, gone, data, index, from, to)
  {
    SpliceApart(c, buf, lo, hi, data, index);
    SpliceInWindow(c, buf, lo, hi, data, index, from, to);
    SpliceOverlay(c, buf, lo, hi, data, index);
    SpliceLength(buf, lo, hi, c);
    PartLength(gone, buf, lo, hi);
    LengthBound(Splice(buf, lo, hi, c), |Splice(buf, lo, hi, c)|, from);
    InsertSplices(buf, lo, hi, c);
  }

  class StreamReassembler {
    const output: ByteStream
    var unassembledBytes: u64
    var expectedIndex: nat
    var buf: seq<Chunk>
    var inputEnded: bool

    /** Everything but that the chunk at the front is still waiting for a byte. */
    ghost predicate Stored()
      reads this, output, output.buf
    {
      && output.Valid()
      && output.cap < TWO64
      && expectedIndex == output.totalWritten
      && StoreOk(buf, expectedIndex, output.cap + output.totalRead, unassembledBytes)
    }

    ghost predicate Valid()
      reads this, output, output.buf
    {
      && Stored()
      && (buf != [] ==> expectedIndex < buf[0].start)
    }

    ghost function View(): (a: Assembly)
      reads this, output, output.buf
      requires Stored()
      ensures a.out.Valid() && forall p :: p in a.held ==> a.Written() <= p < a.Edge()
      ensures Valid() ==> a.Valid()
    {
      BytesInWindow(buf, expectedIndex, output.cap + output.totalRead);
      Assembly(output.View(), Bytes(buf), inputEnded)
    }

    constructor (capacity: u64)
      ensures Valid() && View() == NewAssembly(capacity)
      ensures fresh({this, output, output.buf})
    {
      output := new ByteStream(capacity);
      unassembledBytes, expectedIndex := 0, 0;
      buf, inputEnded := [], false;
      BytesOfNone();
    }

    /** The counter is the number of distinct positions stored; with the bytes not yet read, they fit. */
    lemma Accounting()
      requires Valid()
      ensures unassembledBytes == |View().held|
      ensures unassembledBytes + View().out.Size() <= View().out.capacity
    {
      TotalLengthIsCount(buf);
      LengthBound(buf, |buf|, expectedIndex);
    }

    /** The start of the merged chunk, and what the first touching chunk and the data make of it. */
    static method Begin(c: Chunk, data: seq<byte>, index: nat) returns (newIndex: nat, s: seq<byte>)
      requires Touches(c, data, index)
      ensures newIndex == Min(index, c.start)
      ensures s == if index < c.start then [] else MergeString(c.data, c.start, data, index)
    {
      s := [];
      if index < c.start {
        newIndex := index;
      } else {
        newIndex := c.start;
        s := MergeString(c.data, c.start, data, index);
      }
    }

    /** Finds the chunks lo..hi that touch the data, and what the first of them and the data make if it
        starts no later than the data. */
    static method Scan(buf: seq<Chunk>, data: seq<byte>, index: nat)
      returns (newIndex: nat, s: seq<byte>, prev: nat, toBeDeleted: seq<Chunk>, ghost lo: int, ghost hi: int)
      requires Apart(buf)
      ensures TouchingRange(buf, lo, hi, data, index) && IsPart(toBeDeleted, buf, lo, hi)
      ensures lo < hi ==> newIndex == Min(index, buf[lo].start) && prev == hi - 1
      ensures lo < hi ==> s == if index < buf[lo].start then []
                               else MergeString(buf[lo].data, buf[lo].start, data, index)
    {
      var it, first := 0, false;
      newIndex, s, prev, toBeDeleted, lo := 0, [], 0, [], 0;
      while it < |buf|
        invariant 0 <= lo <= it <= |buf| && (first <==> lo < it)
        invariant forall i :: 0 <= i < lo ==> End(buf[i]) < index
        invariant forall i :: lo <= i < it ==> Touches(buf[i], data, index)
        invariant IsPart(toBeDeleted, buf, lo, it)
        invariant first ==> newIndex == Min(index, buf[lo].start) && prev == it - 1
        invariant s == if !first || index < buf[lo].start then []
                       else MergeString(buf[lo].data, buf[lo].start, data, index)
      {
        var c := buf[it];
        if c.start + |c.data| >= index && c.start <= index + |data| {
          if !first {
            newIndex, s := Begin(c, data, index);
            first := true;
          }
          PartGrows(toBeDeleted, buf, lo, it);
          toBeDeleted := toBeDeleted + [c];
        }
        if c.start > index + |data| {
          break;
        }
        prev := it;
        it := it + 1;
        lo := if first then lo else it;
      }
      hi := it;
    }

    /** The chunk that replaces the touching ones. */
    static method Locate(buf: seq<Chunk>, data: seq<byte>, index: nat, ghost from: nat, ghost to: nat)
      returns (merged: Chunk, toBeDeleted: seq<Chunk>, ghost lo: int, ghost hi: int, ghost spliced: seq<Chunk>)
      requires Apart(buf) && |data| > 0
      requires InWindow(buf, from, to) && from <= index && index + |data| <= to
      ensures 0 <= lo <= hi <= |buf| && IsPart(toBeDeleted, buf, lo, hi)
      ensures lo == hi ==> merged == Chunk(index, data)
      ensures spliced == Insert(Without(buf, lo, hi), merged)
      ensures HoldsMerged(spliced, merged, buf, toBeDeleted, data, index, from, to)
    {
      var newIndex, s, prev;
      newIndex, s, prev, toBeDeleted, lo, hi := Scan(buf, data, index);
      merged := Chunk(index, data);
      if toBeDeleted != [] {
        var last := buf[prev];
        if s == [] {
          s := MergeString(data, index, last.data, last.start);
        } else {
          s := MergeString(s, newIndex, last.data, last.start);
        }
        merged := Chunk(newIndex, s);
        SplicedReplaces(buf, lo, hi, data, index);
      }
      SpliceStored(merged, buf, toBeDeleted, lo, hi, data, index, from, to);
      spliced := Insert(Without(buf, lo, hi), merged);
    }

    static method EraseOne(rest: seq<Chunk>, c: Chunk, ghost buf: seq<Chunk>, ghost lo: int, ghost i: int)
      returns (rest': seq<Chunk>)
      requires Apart(buf) && 0 <= lo <= i < |buf| && c == buf[i] && rest == Without(buf, lo, i)
      ensures rest' == Without(buf, lo, i + 1)
    {
      EraseStep(buf, lo, i);
      rest' := Erase(rest, c.start);
    }

    /** Erases the given chunks, which are those at lo..hi, and adds up their lengths. */
    static method EraseChunks(buf: seq<Chunk>, toBeDeleted: seq<Chunk>, ghost lo: int, ghost hi: int)
      returns (rest: seq<Chunk>, total: nat)
      requires Apart(buf) && 0 <= lo <= hi <= |buf| && IsPart(toBeDeleted, buf, lo, hi)
      ensures rest == Without(buf, lo, hi)
      ensures total == TotalLength(toBeDeleted)
    {
      rest, total := buf, 0;
      NothingErased(buf, lo);
      ghost var i := lo;
      for k := 0 to |toBeDeleted|
        invariant i == lo + k && rest == Without(buf, lo, i)
        invariant total == LengthOf(toBeDeleted, k)
      {
        total := total + |toBeDeleted[k].data|;
        rest := EraseOne(rest, toBeDeleted[k], buf, lo, i);
        i := i + 1;
      }
    }

    static method MergeStore(buf: seq<Chunk>, stored: u64, data: seq<byte>, index: nat, ghost from: nat, ghost to: nat)
      returns (buf': seq<Chunk>, stored': u64)
      requires Apart(buf) && |data| > 0 && stored == TotalLength(buf)
      requires InWindow(buf, from, to) && from <= index && index + |data| <= to < from + TWO64
      ensures Apart(buf') && InWindow(buf', from, to) && stored' == TotalLength(buf')
      ensures Bytes(buf') == Overlay(Bytes(buf), data, index)
    {
      var merged, toBeDeleted, lo, hi, spliced := Locate(buf, data, index, from, to);
      if toBeDeleted != [] {
        var rest, total := EraseChunks(buf, toBeDeleted, lo, hi);
        CounterWraps(stored, total, |merged.data|);
        buf' := Insert(rest, merged);
        stored' := Trunc64(stored - Trunc64(total - |merged.data|));
      } else {
        NothingErased(buf, lo);
        buf' := Insert(buf, merged);
        stored' := stored + |data|;
      }
      assert buf' == spliced;
    }

    /** Lays non-empty `data` in the window over the stored bytes, splicing only the first and the last
        touching chunk and deleting the ones between. */
    method Merge(data: seq<byte>, index: nat)
      requires Valid() && |data| > 0
      requires expectedIndex <= index && index + |data| <= output.cap + output.totalRead
      modifies this`buf, this`unassembledBytes
      ensures Stored()
      ensures Bytes(buf) == Overlay(old(Bytes(buf)), data, index)
    {
      buf, unassembledBytes :=
        MergeStore(buf, unassembledBytes, data, index, expectedIndex, output.cap + output.totalRead);
    }

    /** Writes the chunk at the front out, if its turn has come. It always fits: the branch for a chunk longer
        than the room left, which reads a map entry after erasing it, is unreachable. */
    method WriteFront()
      requires Stored()
      modifies this, output, output.buf
      ensures Valid() && inputEnded == old(inputEnded)
      ensures if old(buf != [] && buf[0].start == expectedIndex)
              then buf == old(buf)[1..] && output.View() == old(output.View()).Write(old(buf[0].data))
              else buf == old(buf) && output.View() == old(output.View())
      ensures old(buf != [] && buf[0].start == expectedIndex) ==> |old(buf[0].data)| <= old(output.View()).Room()
    {
      if buf != [] {
        var c := buf[0];
        var room := output.RemainingCapacity();
        if c.start == expectedIndex && room > 0 {
          PopFront(buf, expectedIndex, output.cap + output.totalRead, unassembledBytes);
          if |c.data| > room {
            assert false;
          } else {
            var n := output.Write(c.data);
            unassembledBytes := unassembledBytes - |c.data|;
            expectedIndex := expectedIndex + |c.data|;
            buf := Erase(buf, c.start);
          }
        }
      }
    }

    method ReorderBuffer()
      requires Stored()
      modifies this, output, output.buf
      ensures Valid()
      ensures View() == old(View()).Flush(old(View()).held)
    {
      ghost var a, was := View(), buf;
      WriteFront();
      if was != [] && was[0].start == a.Written() {
        FlushDue(a, was);
      } else {
        FlushWaits(a, was);
      }
    }

    method Absorb(data: seq<byte>, index: nat)
      requires Valid() && |data| > 0
      requires View().Written() <= index && index + |data| <= View().Edge()
      modifies this, output, output.buf
      ensures Valid()
      ensures View() == old(View()).Absorb(data, index)
    {
      ghost var a := View();
      Merge(data, index);
      assert View() == a.(held := Overlay(a.held, data, index));
      ReorderBuffer();
    }

    method Finish(eof: bool)
      requires Valid()
      modifies this, output, output.buf
      ensures Valid()
      ensures View() == old(View()).Finish(eof)
    {
      Accounting();
      if eof {
        inputEnded := true;
      }
      if inputEnded && unassembledBytes == 0 {
        output.EndInput();
      }
    }

    method PushSubstring(data: seq<byte>, index: nat, eof: bool)
      requires Valid()
      modifies this, output, output.buf
      ensures Valid()
      ensures View() == old(View()).Push(data, index, eof)
    {
      ghost var a := View();
      var room := output.RemainingCapacity();
      var v := Validate(expectedIndex, room, data, index, eof);
      ValidateClips(a, data, index, eof);
      if !v.accepted {
        return;
      }
      if v.data != [] {
        Absorb(v.data, v.index);
      }
      Finish(v.eof);
    }

    /** The reader's side of the output: popping bytes widens the window. */
    method Read(n: nat) returns (s: seq<byte>)
      requires Valid()
      modifies this, output, output.buf
      ensures Valid()
      ensures View() == old(View()).Pop(n) && s == old(View()).out.Peek(n)
    {
      s := output.Read(n);
    }

    method Empty() returns (r: bool)
      requires Valid()
      ensures r <==> |View().held| == 0
    {
      Accounting();
      r := unassembledBytes == 0;
    }

    method BytesWritten() returns (n: nat)
      requires Valid()
      ensures n == View().Written()
    {
      n := output.totalWritten;
    }
  }
}
