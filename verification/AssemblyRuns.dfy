/** What holds of a reassembler over whole runs of pushes and reads. */
module AssemblyRuns {
  import opened Machine
  import opened Assembly

  datatype Op = Push(data: seq<byte>, index: nat, eof: bool) | Read(n: nat)

  function Apply(a: Assembly, op: Op): (a': Assembly)
    requires a.Valid()
    ensures a'.Valid()
  {
    match op
    case Push(data, index, eof) => a.Push(data, index, eof)
    case Read(n) => a.Pop(n)
  }

  function RunFrom(a: Assembly, ops: seq<Op>): (a': Assembly)
    requires a.Valid()
    ensures a'.Valid()
  {
    if ops == [] then a else Apply(RunFrom(a, ops[..|ops| - 1]), ops[|ops| - 1])
  }

  function Run(capacity: nat, ops: seq<Op>): (a: Assembly)
    ensures a.Valid()
  {
    RunFrom(NewAssembly(capacity), ops)
  }

  /** The reference: a set of received positions. A push adds the positions of its substring that lie
      before the edge, and the reader may read up to the first missing position. */
  datatype Received = Received(capacity: nat, got: set<nat>, read: nat)
  {
    function Apply(op: Op): Received
    {
      match op
      case Push(data, index, _) => this.(got := got + set p | p in Span(index, |data|) && p < capacity + read)
      case Read(n) => this.(read := Min(read + n, FirstGap(got, 0)))
    }
  }

  function RunReceived(capacity: nat, ops: seq<Op>): Received
  {
    if ops == [] then Received(capacity, {}, 0) else RunReceived(capacity, ops[..|ops| - 1]).Apply(ops[|ops| - 1])
  }

  /** The position has been assembled or is held. */
  predicate Has(a: Assembly, p: nat)
  {
    p < a.Written() || p in a.held
  }

  ghost predicate Matches(a: Assembly, r: Received)
    requires a.Valid()
  {
    && a.out.capacity == r.capacity && a.out.read == r.read
    && (forall p: nat :: Has(a, p) <==> p in r.got)
  }

  lemma FlushHas(a: Assembly, all: map<nat, byte>, p: nat)
    requires a.out.Valid() && forall q :: q in all ==> a.Written() <= q < a.Edge()
    ensures Has(a.Flush(all), p) <==> p < a.Written() || p in all
    ensures a.Flush(all).Written() == FirstGap(all.Keys, a.Written())
  {
  }

  /** A push adds exactly the positions of the substring that lie before the edge. */
  lemma PushHas(a: Assembly, data: seq<byte>, index: nat, eof: bool, p: nat)
    requires a.Valid()
    ensures Has(a.Push(data, index, eof), p) <==> Has(a, p) || (p in Span(index, |data|) && p < a.Edge())
  {
    var c := a.Clip(data, index, eof);
    if c.accepted && c.data != [] {
      FlushHas(a, Overlay(a.held, c.data, c.index), p);
    }
  }

  /** A byte of a pushed substring is newly stored or stays stored exactly if it is in the window. */
  lemma PushWindow(a: Assembly, data: seq<byte>, index: nat, eof: bool, p: nat)
    requires a.Valid() && index <= p < index + |data|
    ensures Has(a.Push(data, index, eof), p) && a.Written() <= p <==> a.Written() <= p < a.Edge()
  {
    PushHas(a, data, index, eof, p);
    assert p in Span(index, |data|);
  }

  lemma PushKeepsEdge(a: Assembly, data: seq<byte>, index: nat, eof: bool)
    requires a.Valid()
    ensures var b := a.Push(data, index, eof);
            b.out == a.out.(history := b.out.history, ended := b.out.ended)
    ensures a.out.history <= a.Push(data, index, eof).out.history
  {
  }

  lemma MatchesGap(a: Assembly, r: Received)
    requires a.Valid() && Matches(a, r)
    ensures FirstGap(r.got, 0) == a.Written()
    ensures a.held.Keys == set p | p in r.got && a.Written() <= p
  {
    assert !Has(a, a.Written());
    assert forall i :: 0 <= i < a.Written() ==> Has(a, i);
    FirstGapUnique(r.got, 0, a.Written());
    forall p: nat ensures p in a.held <==> p in r.got && a.Written() <= p {
      assert Has(a, p) <==> p in r.got;
    }
  }

  lemma ApplyMatches(a: Assembly, r: Received, op: Op)
    requires a.Valid() && Matches(a, r)
    ensures Matches(Apply(a, op), r.Apply(op))
  {
    MatchesGap(a, r);
    match op
    case Push(data, index, eof) =>
      PushKeepsEdge(a, data, index, eof);
      forall p: nat ensures Has(Apply(a, op), p) <==> p in r.Apply(op).got {
        assert Has(a, p) <==> p in r.got;
        PushHas(a, data, index, eof, p);
      }
    case Read(n) =>
      forall p: nat ensures Has(Apply(a, op), p) <==> p in r.got {
        assert Has(a, p) <==> p in r.got;
      }
  }

  /** Refinement: after any pushes and reads, the output is the longest prefix of the received positions and
      the store holds exactly the others. */
  lemma {:induction false} RunRefines(capacity: nat, ops: seq<Op>)
    ensures var a, r := Run(capacity, ops), RunReceived(capacity, ops);
            && Matches(a, r)
            && a.Written() == FirstGap(r.got, 0)
            && a.held.Keys == (set p | p in r.got && a.Written() <= p)
  {
    if ops != [] {
      RunRefines(capacity, ops[..|ops| - 1]);
      ApplyMatches(Run(capacity, ops[..|ops| - 1]), RunReceived(capacity, ops[..|ops| - 1]), ops[|ops| - 1]);
    }
    MatchesGap(Run(capacity, ops), RunReceived(capacity, ops));
  }

  /** `data` at `index` is a substring of `stream`; empty data is one, whatever the index. */
  ghost predicate IsSubstring(data: seq<byte>, index: nat, stream: seq<byte>)
  {
    data == [] || (index + |data| <= |stream| && forall i :: 0 <= i < |data| ==> data[i] == stream[index + i])
  }

  /** Every byte assembled or held is the one of `stream` at its position. */
  ghost predicate Agrees(a: Assembly, stream: seq<byte>)
  {
    && a.out.history <= stream
    && forall p :: p in a.held ==> p < |stream| && a.held[p] == stream[p]
  }

  lemma OverlayAgrees(held: map<nat, byte>, data: seq<byte>, index: nat, stream: seq<byte>)
    requires forall p :: p in held ==> p < |stream| && held[p] == stream[p]
    requires data != [] && IsSubstring(data, index, stream)
    ensures var m := Overlay(held, data, index); forall p :: p in m ==> p < |stream| && m[p] == stream[p]
  {
  }

  lemma FlushAgrees(a: Assembly, all: map<nat, byte>, stream: seq<byte>)
    requires a.out.Valid() && forall q :: q in all ==> a.Written() <= q < a.Edge()
    requires a.out.history <= stream && forall p :: p in all ==> p < |stream| && all[p] == stream[p]
    ensures Agrees(a.Flush(all), stream)
  {
    var n := FirstGap(all.Keys, a.Written());
    assert n > a.Written() ==> n - 1 in all;
    var run := Slice(all, a.Written(), n);
    assert run == stream[a.Written()..n];
    assert a.out.history + run == stream[..n];
  }

  lemma ClipIsSubstring(a: Assembly, data: seq<byte>, index: nat, eof: bool, stream: seq<byte>)
    requires a.Valid() && IsSubstring(data, index, stream)
    ensures var c := a.Clip(data, index, eof); c.accepted ==> IsSubstring(c.data, c.index, stream)
  {
  }

  lemma PushAgrees(a: Assembly, data: seq<byte>, index: nat, eof: bool, stream: seq<byte>)
    requires a.Valid() && Agrees(a, stream) && IsSubstring(data, index, stream)
    ensures Agrees(a.Push(data, index, eof), stream)
  {
    var c := a.Clip(data, index, eof);
    ClipIsSubstring(a, data, index, eof, stream);
    if c.accepted && c.data != [] {
      OverlayAgrees(a.held, c.data, c.index, stream);
      FlushAgrees(a, Overlay(a.held, c.data, c.index), stream);
    }
  }

  ghost predicate AllSubstrings(ops: seq<Op>, stream: seq<byte>)
  {
    forall op <- ops :: op.Push? ==> IsSubstring(op.data, op.index, stream)
  }

  /** If everything pushed is a substring of one stream, in whatever order and however often, the output is a
      prefix of that stream. */
  lemma {:induction false} RunAgrees(capacity: nat, ops: seq<Op>, stream: seq<byte>)
    requires AllSubstrings(ops, stream)
    ensures Agrees(Run(capacity, ops), stream)
  {
    if ops != [] {
      var a, op := Run(capacity, ops[..|ops| - 1]), ops[|ops| - 1];
      RunAgrees(capacity, ops[..|ops| - 1], stream);
      if op.Push? {
        PushAgrees(a, op.data, op.index, op.eof, stream);
      }
    }
  }

  lemma ApplyKeepsEdge(a: Assembly, op: Op)
    requires a.Valid()
    ensures a.Edge() <= Apply(a, op).Edge() && Apply(a, op).out.capacity == a.out.capacity
  {
    if op.Push? {
      PushKeepsEdge(a, op.data, op.index, op.eof);
    }
  }

  lemma EdgeIsWindowEnd(a: Assembly)
    requires a.Valid()
    ensures a.Edge() == a.Written() + a.out.Room()
  {
  }

  /** The end of the window is always the capacity plus the bytes read, whatever is pushed. */
  lemma {:induction false} WindowEnd(capacity: nat, ops: seq<Op>)
    ensures var a := Run(capacity, ops);
            a.out.capacity == capacity && a.Written() + a.out.Room() == capacity + a.out.read
  {
    EdgeIsWindowEnd(Run(capacity, ops));
    if ops != [] {
      var m := |ops| - 1;
      WindowEnd(capacity, ops[..m]);
      ApplyKeepsEdge(Run(capacity, ops[..m]), ops[m]);
    }
  }

  lemma PrefixOfPrefix(ops: seq<Op>, m: nat, n: nat)
    requires n <= m <= |ops|
    ensures ops[..m][..n] == ops[..n]
  {
  }

  /** So it never moves left over a run. */
  lemma {:induction false} EdgeMonotone(capacity: nat, ops: seq<Op>, n: nat)
    requires n <= |ops|
    ensures Run(capacity, ops[..n]).Edge() <= Run(capacity, ops).Edge()
    decreases |ops|
  {
    if n == |ops| {
      assert ops[..n] == ops;
    } else {
      var m := |ops| - 1;
      EdgeMonotone(capacity, ops[..m], n);
      PrefixOfPrefix(ops, m, n);
      ApplyKeepsEdge(Run(capacity, ops[..m]), ops[m]);
    }
  }

  /** A run over a stream of `total` bytes in which the end is marked only by non-empty substrings that
      contain the last byte, pushed while there is room. */
  ghost predicate HonestEnds(capacity: nat, ops: seq<Op>, total: nat)
  {
    ops == [] ||
    var m := |ops| - 1;
    && HonestEnds(capacity, ops[..m], total)
    && (ops[m].Push? ==> HonestPush(Run(capacity, ops[..m]), ops[m].data, ops[m].index, ops[m].eof, total))
  }

  ghost predicate HonestPush(a: Assembly, data: seq<byte>, index: nat, eof: bool, total: nat)
    requires a.Valid()
  {
    && (data != [] ==> index + |data| <= total)
    && (eof ==> data != [] && index + |data| == total && a.out.Room() > 0)
  }

  /** The end has been seen exactly if the last byte came with it, and the output has ended exactly if it has
      been seen and everything is assembled. */
  ghost predicate EndsExactly(a: Assembly, total: nat)
  {
    && a.Written() <= total
    && (forall p :: p in a.held ==> p < total)
    && (a.eofKept ==> total > 0 && Has(a, total - 1))
    && (a.out.ended <==> a.eofKept && a.Written() == total)
  }

  /** What a push does to the two end flags. */
  lemma PushFlags(a: Assembly, data: seq<byte>, index: nat, eof: bool)
    requires a.Valid()
    ensures var b, c := a.Push(data, index, eof), a.Clip(data, index, eof);
            if !c.accepted then b == a else
            && b.eofKept == (a.eofKept || c.eof)
            && b.out.ended == (a.out.ended || (b.eofKept && b.held == map[]))
  {
    assert forall m: map<nat, byte> :: |m| == 0 <==> m == map[];
  }

  /** When the last byte is there and none is past it, everything is assembled exactly if nothing is held. */
  lemma NothingHeld(a: Assembly, total: nat)
    requires a.Valid() && total > 0 && Has(a, total - 1)
    requires a.Written() <= total && forall p :: p in a.held ==> p < total
    ensures a.held == map[] <==> a.Written() == total
  {
    if a.Written() == total { assert a.held.Keys == {}; }
  }

  lemma PushStaysBelow(a: Assembly, data: seq<byte>, index: nat, eof: bool, total: nat)
    requires a.Valid() && a.Written() <= total && forall p :: p in a.held ==> p < total
    requires data != [] ==> index + |data| <= total
    ensures var b := a.Push(data, index, eof); b.Written() <= total && forall p :: p in b.held ==> p < total
  {
    var b := a.Push(data, index, eof);
    forall p: nat | Has(b, p) ensures p < total { PushHas(a, data, index, eof, p); }
    assert b.Written() > 0 ==> Has(b, b.Written() - 1);
    assert forall p :: p in b.held ==> Has(b, p);
  }

  lemma PushKeepsMark(a: Assembly, data: seq<byte>, index: nat, eof: bool, total: nat)
    requires a.Valid() && HonestPush(a, data, index, eof, total)
    ensures a.Push(data, index, eof).eofKept <==>
            a.eofKept || (eof && a.Written() < index + |data| <= a.Edge())
  {
    PushFlags(a, data, index, eof);
  }

  lemma PushHasLast(a: Assembly, data: seq<byte>, index: nat, eof: bool, total: nat)
    requires a.Valid() && EndsExactly(a, total) && HonestPush(a, data, index, eof, total)
    ensures a.Push(data, index, eof).eofKept ==> total > 0 && Has(a.Push(data, index, eof), total - 1)
  {
    PushKeepsMark(a, data, index, eof, total);
    if a.Push(data, index, eof).eofKept { PushHas(a, data, index, eof, total - 1); }
  }

  lemma PushEndsExactly(a: Assembly, data: seq<byte>, index: nat, eof: bool, total: nat)
    requires a.Valid() && EndsExactly(a, total) && HonestPush(a, data, index, eof, total)
    ensures EndsExactly(a.Push(data, index, eof), total)
    ensures a.Push(data, index, eof).eofKept <==>
            a.eofKept || (eof && a.Written() < index + |data| <= a.Edge())
  {
    var b := a.Push(data, index, eof);
    PushFlags(a, data, index, eof);
    PushStaysBelow(a, data, index, eof, total);
    PushKeepsMark(a, data, index, eof, total);
    PushHasLast(a, data, index, eof, total);
    if b.eofKept { NothingHeld(b, total); }
  }

  /** End of stream: in an honest run the output's input has ended in exactly the states in which a
      substring with the end mark has been kept whole and the last byte is written. */
  lemma {:induction false} RunEndsExactly(capacity: nat, ops: seq<Op>, total: nat)
    requires HonestEnds(capacity, ops, total)
    ensures EndsExactly(Run(capacity, ops), total)
  {
    if ops != [] {
      var m := |ops| - 1;
      RunEndsExactly(capacity, ops[..m], total);
      if ops[m].Push? {
        PushEndsExactly(Run(capacity, ops[..m]), ops[m].data, ops[m].index, ops[m].eof, total);
      }
    }
  }

  /** Without that discipline the output can end early: a push that marks the true end ends the input at once, with
      bytes missing, exactly if the mark is not checked against the window (no data or no room) and nothing
      is held. */
  lemma EndsAtOnceIff(a: Assembly, data: seq<byte>, index: nat, eof: bool, total: nat)
    requires a.Valid() && !a.out.ended && !a.eofKept
    requires a.Written() <= total && forall p :: p in a.held ==> p < total
    requires (data != [] ==> index + |data| <= total) && (eof ==> index + |data| == total)
    ensures var b := a.Push(data, index, eof);
            b.out.ended && b.Written() < total <==>
            eof && (data == [] || a.out.Room() == 0) && a.held == map[] && a.Written() < total
  {
    var b, c := a.Push(data, index, eof), a.Clip(data, index, eof);
    PushFlags(a, data, index, eof);
    if c.accepted && c.data != [] { CheckedEnd(a, data, index, eof, total); }
  }

  /** A mark that is checked against the window does not end the input early. */
  lemma CheckedEnd(a: Assembly, data: seq<byte>, index: nat, eof: bool, total: nat)
    requires a.Valid() && !a.out.ended && !a.eofKept
    requires a.Written() <= total && forall p :: p in a.held ==> p < total
    requires (data != [] ==> index + |data| <= total) && (eof ==> index + |data| == total)
    requires var c := a.Clip(data, index, eof); c.accepted && c.data != []
    ensures var b := a.Push(data, index, eof); b.out.ended ==> b.Written() == total
  {
    var b := a.Push(data, index, eof);
    PushFlags(a, data, index, eof);
    PushStaysBelow(a, data, index, eof, total);
    if b.eofKept {
      PushHas(a, data, index, eof, total - 1);
      NothingHeld(b, total);
    }
  }

  /** A bare end mark that overtakes the data ends the stream before its first byte. */
  lemma BareEndOvertakes(stream: seq<byte>)
    requires stream != []
    ensures var ops := [Push([], |stream|, true)];
            AllSubstrings(ops, stream) && Run(|stream|, ops).out.ended && Run(|stream|, ops).out.history == []
  {
    var ops := [Push([], |stream|, true)];
    var a := NewAssembly(|stream|);
    assert ops[..0] == [] && RunFrom(a, []) == a;
    assert RunFrom(a, ops) == Apply(a, ops[0]);
  }
}
