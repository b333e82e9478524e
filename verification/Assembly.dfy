/** What a stream reassembler means: the bytes assembled in order, and the bytes held for later as a map
    from stream position to byte, with no trace of how they are stored in chunks. */
module Assembly {
  import opened Machine
  import opened ByteStreams

  /** The least number from `n` on that is not in `got`. */
  function FirstGap(got: set<nat>, n: nat): (g: nat)
    ensures n <= g && g !in got
    ensures forall i :: n <= i < g ==> i in got
    decreases |got|
  {
    if n !in got then n else
    var g := FirstGap(got - {n}, n + 1);
    assert forall i | n <= i < g :: i in got by {
      forall i | n <= i < g ensures i in got { assert i == n || i in got - {n}; }
    }
    g
  }

  lemma FirstGapUnique(got: set<nat>, n: nat, g: nat)
    requires n <= g && g !in got && forall i :: n <= i < g ==> i in got
    ensures FirstGap(got, n) == g
  {
  }

  lemma FirstGapBelow(got: set<nat>, n: nat, edge: nat)
    requires n <= edge && forall p :: p in got ==> p < edge
    ensures FirstGap(got, n) <= edge
  {
    assert FirstGap(got, n) > edge ==> edge in got;
  }

  /** The first `n` bytes of a map that starts at `from`. */
  function Slice(m: map<nat, byte>, from: nat, to: nat): (s: seq<byte>)
    requires from <= to && forall i :: from <= i < to ==> i in m
    ensures |s| == to - from && forall i :: 0 <= i < |s| ==> s[i] == m[from + i]
  {
    seq(to - from, i requires 0 <= i < to - from => m[from + i])
  }

  /** What a map holds from position `n` on. */
  function From(m: map<nat, byte>, n: nat): map<nat, byte>
  {
    map p | p in m && n <= p :: m[p]
  }

  /** `data` laid over the held bytes at `index`. Where both have a byte, the held one stays only if every
      position from `index` up to it is held. */
  function Overlay(held: map<nat, byte>, data: seq<byte>, index: nat): (m: map<nat, byte>)
    ensures m.Keys == held.Keys + Span(index, |data|)
  {
    map p | p in held.Keys + Span(index, |data|) ::
      if p in held && (!(index <= p < index + |data|) || AllHeld(held, index, p)) then held[p] else data[p - index]
  }

  predicate AllHeld(held: map<nat, byte>, from: nat, to: nat)
  {
    forall q :: from <= q <= to ==> q in held
  }

  predicate Within(p: nat, index: nat, length: nat)
  {
    index <= p < index + length
  }

  /** The positions of a substring of the given length. */
  function Span(index: nat, length: nat): set<nat>
  {
    set p: nat | index <= p < index + length && Within(p, index, length)
  }

  lemma {:induction false} SpanSize(index: nat, length: nat)
    ensures |Span(index, length)| == length
  {
    if length > 0 {
      SpanSize(index, length - 1);
      assert Span(index, length) == Span(index, length - 1) + {index + length - 1};
    }
  }

  /** A pushed substring after clipping; `accepted` is false if it is to be ignored. */
  datatype Clipped = Clipped(data: seq<byte>, index: nat, eof: bool, accepted: bool)

  datatype Assembly = Assembly(out: Stream, held: map<nat, byte>, eofKept: bool)
  {
    function Written(): nat { |out.history| }

    /** The first position past the window: everything held lies before it. */
    function Edge(): nat
    {
      out.capacity + out.read
    }

    ghost predicate Valid()
    {
      && out.Valid()
      && forall p :: p in held ==> Written() < p < Edge()
    }

    function Finish(eof: bool): (a: Assembly)
    {
      this.(eofKept := eofKept || eof, out := out.(ended := out.ended || ((eofKept || eof) && |held| == 0)))
    }

    /** The held bytes become `all`, less the contiguous ones, which go to the output. */
    function Flush(all: map<nat, byte>): (a: Assembly)
      requires out.Valid() && forall p :: p in all ==> Written() <= p < Edge()
      ensures a.Valid()
    {
      FirstGapBelow(all.Keys, Written(), Edge());
      var n := FirstGap(all.Keys, Written());
      Assembly(out.(history := out.history + Slice(all, Written(), n)), From(all, n), eofKept)
    }

    /** Holds `data` as well and moves whatever has become contiguous to the output. */
    function Absorb(data: seq<byte>, index: nat): (a: Assembly)
      requires Valid()
      requires Written() <= index && index + |data| <= Edge()
      ensures a.Valid()
    {
      Flush(Overlay(held, data, index))
    }

    /** A pushed substring, clipped to the window. Nothing but its `eof` counts if it is empty or there is no
        room; it is ignored outright if none of it is in the window; otherwise its part in the window is
        taken, and its `eof` counts only if its end is in the window. */
    function Clip(data: seq<byte>, index: nat, eof: bool): (c: Clipped)
      requires Valid()
      ensures c.accepted && c.data != [] ==> Written() <= c.index && c.index + |c.data| <= Edge()
    {
      var end := index + |data|;
      var lo, hi := Max(index, Written()), Min(end, Edge());
      if out.Room() == 0 || |data| == 0 then Clipped([], 0, eof, true)
      else if lo >= hi then Clipped([], 0, false, false)
      else Clipped(Cut(data, lo - index, hi - index), lo, eof && end <= Edge(), true)
    }

    function Push(data: seq<byte>, index: nat, eof: bool): (a: Assembly)
      requires Valid()
      ensures a.Valid()
    {
      var c := Clip(data, index, eof);
      if !c.accepted then this
      else if c.data == [] then Finish(c.eof)
      else Absorb(c.data, c.index).Finish(c.eof)
    }

    function Pop(n: nat): (a: Assembly)
      requires Valid()
      ensures a.Valid()
    {
      this.(out := out.Pop(n))
    }
  }

  function NewAssembly(capacity: nat): (a: Assembly)
    ensures a.Valid()
  {
    Assembly(NewStream(capacity), map[], false)
  }
}
