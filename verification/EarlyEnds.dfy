/** When an end mark that comes without the last byte is harmless: exactly if the last byte is already there. */
module EarlyEnds {
  import opened Machine
  import opened Assembly
  import opened AssemblyRuns

  /** Parts of the stream, without end marks, and reads. */
  ghost predicate Genuine(ops: seq<Op>, stream: seq<byte>)
  {
    AllSubstrings(ops, stream) && forall op <- ops :: op.Push? ==> !op.eof
  }

  /** Whatever genuine data follows, the output does not end before the last byte. */
  ghost predicate NeverEarly(a: Assembly, stream: seq<byte>)
    requires a.Valid()
  {
    forall ops :: Genuine(ops, stream) ==> RunFrom(a, ops).out.ended ==> RunFrom(a, ops).out.history == stream
  }

  /** No mark, or a mark with the last byte there; and no early end so far. */
  ghost predicate MarkOk(a: Assembly, stream: seq<byte>)
  {
    && a.Valid() && Agrees(a, stream)
    && (a.eofKept && stream != [] ==> Has(a, |stream| - 1))
    && (a.out.ended ==> a.out.history == stream)
  }

  /** With the last byte there, nothing is held only if everything is assembled. */
  lemma AllThere(a: Assembly, stream: seq<byte>)
    requires a.Valid() && Agrees(a, stream) && (stream != [] ==> Has(a, |stream| - 1)) && a.held == map[]
    ensures a.out.history == stream
  {
  }

  lemma PushMarkOk(a: Assembly, data: seq<byte>, index: nat, stream: seq<byte>)
    requires MarkOk(a, stream) && IsSubstring(data, index, stream)
    ensures MarkOk(a.Push(data, index, false), stream)
  {
    var b := a.Push(data, index, false);
    PushAgrees(a, data, index, false, stream);
    PushFlags(a, data, index, false);
    if stream != [] { PushHas(a, data, index, false, |stream| - 1); }
    PushKeepsEdge(a, data, index, false);
    if b.eofKept && b.held == map[] { AllThere(b, stream); }
  }

  lemma {:induction false} RunMarkOk(a: Assembly, ops: seq<Op>, stream: seq<byte>)
    requires MarkOk(a, stream) && Genuine(ops, stream)
    ensures MarkOk(RunFrom(a, ops), stream)
  {
    if ops != [] {
      var m := |ops| - 1;
      RunMarkOk(a, ops[..m], stream);
      assert ops[m] in ops;
      if ops[m].Push? { PushMarkOk(RunFrom(a, ops[..m]), ops[m].data, ops[m].index, stream); }
    }
  }

  lemma {:induction false} Greatest(s: set<nat>) returns (m: nat)
    requires s != {}
    ensures m in s && forall p <- s :: p <= m
    decreases |s|
  {
    m :| m in s;
    if s != {m} {
      var k := Greatest(s - {m});
      assert forall p <- s :: p == m || p in s - {m};
      if k > m { m := k; }
    }
  }

  /** What a push leaves unwritten is not there. */
  lemma NextMissing(a: Assembly)
    requires a.Valid()
    ensures !Has(a, a.Written())
  {
  }

  lemma InSpan(p: nat, index: nat, length: nat)
    ensures p in Span(index, length) <==> index <= p < index + length
  {
    assert Within(p, index, length) <==> index <= p < index + length;
  }

  /** After closing the gaps exactly the positions up to `m` are there. */
  lemma ClosedHas(a: Assembly, stream: seq<byte>, m: nat, eof: bool, p: nat)
    requires a.Valid() && Agrees(a, stream) && m in a.held && forall p <- a.held.Keys :: p <= m
    ensures Has(a.Push(stream[a.Written()..m + 1], a.Written(), eof), p) <==> p <= m
  {
    var w := a.Written();
    PushHas(a, stream[w..m + 1], w, eof, p);
    InSpan(p, w, m + 1 - w);
  }

  /** Genuine data that closes the gaps up to the greatest position held empties the store. */
  lemma ClosesGaps(a: Assembly, stream: seq<byte>, m: nat, eof: bool)
    requires a.Valid() && Agrees(a, stream) && m in a.held && forall p <- a.held.Keys :: p <= m
    ensures var b := a.Push(stream[a.Written()..m + 1], a.Written(), eof);
            b.Written() == m + 1 && b.held == map[]
  {
    var b := a.Push(stream[a.Written()..m + 1], a.Written(), eof);
    NextMissing(b);
    ClosedHas(a, stream, m, eof, b.Written());
    ClosedHas(a, stream, m, eof, m + 1);
    forall p | p in b.held ensures false { ClosedHas(a, stream, m, eof, p); }
    assert b.held.Keys == {};
  }

  lemma ClosingEnds(a: Assembly, stream: seq<byte>, m: nat, eof: bool)
    requires a.Valid() && Agrees(a, stream) && m in a.held && (forall p <- a.held.Keys :: p <= m) && a.eofKept
    ensures a.Push(stream[a.Written()..m + 1], a.Written(), eof).out.ended
  {
    ClosesGaps(a, stream, m, eof);
    PushFlags(a, stream[a.Written()..m + 1], a.Written(), eof);
  }

  lemma RunOne(a: Assembly, op: Op)
    requires a.Valid()
    ensures RunFrom(a, [op]) == Apply(a, op)
  {
    assert [op][..0] == [];
  }

  /** A continuation that ends early. */
  lemma ShownEarly(a: Assembly, ops: seq<Op>, stream: seq<byte>)
    requires a.Valid() && Genuine(ops, stream) && RunFrom(a, ops).out.ended && RunFrom(a, ops).Written() < |stream|
    ensures !NeverEarly(a, stream)
  {
  }

  lemma OneGenuine(stream: seq<byte>, from: nat, to: nat)
    requires from <= to <= |stream|
    ensures Genuine([Push(stream[from..to], from, false)], stream)
  {
  }

  lemma FillsUp(a: Assembly, stream: seq<byte>, m: nat)
    requires a.Valid() && Agrees(a, stream) && a.eofKept && m in a.held && forall p <- a.held.Keys :: p <= m
    requires m + 1 < |stream|
    ensures !NeverEarly(a, stream)
  {
    var op := Push(stream[a.Written()..m + 1], a.Written(), false);
    ClosesGaps(a, stream, m, false);
    ClosingEnds(a, stream, m, false);
    RunOne(a, op);
    OneGenuine(stream, a.Written(), m + 1);
    ShownEarly(a, [op], stream);
  }

  /** A mark while the last byte is missing ends the output early in some continuation: at once if nothing is held,
      and otherwise as soon as the gaps before what is held are closed. */
  lemma EndsEarly(a: Assembly, stream: seq<byte>)
    requires a.Valid() && Agrees(a, stream) && a.eofKept && stream != [] && !Has(a, |stream| - 1)
    requires a.held == map[] ==> a.out.ended
    ensures !NeverEarly(a, stream)
  {
    if a.held == map[] {
      ShownEarly(a, [], stream);
    } else {
      assert a.held.Keys != {} by { var p :| p in a.held; }
      var m := Greatest(a.held.Keys);
      FillsUp(a, stream, m);
    }
  }

  lemma StaysSafe(a: Assembly, stream: seq<byte>)
    requires MarkOk(a, stream)
    ensures NeverEarly(a, stream)
  {
    forall ops | Genuine(ops, stream) ensures RunFrom(a, ops).out.ended ==> RunFrom(a, ops).out.history == stream {
      RunMarkOk(a, ops, stream);
    }
  }

  /** The mark is harmless: it is checked against the window, or the last byte is there. */
  predicate MarkSafe(a: Assembly, data: seq<byte>, stream: seq<byte>)
    requires a.Valid()
  {
    (data != [] && a.out.Room() > 0) || stream == [] || Has(a, |stream| - 1)
  }

  /** A push that marks the true end, or nothing. */
  ghost predicate MarksEnd(a: Assembly, data: seq<byte>, index: nat, stream: seq<byte>)
  {
    && a.Valid() && Agrees(a, stream) && !a.out.ended && !a.eofKept
    && IsSubstring(data, index, stream) && (data != [] ==> index + |data| == |stream|)
  }

  lemma MarkedHas(a: Assembly, data: seq<byte>, index: nat, stream: seq<byte>)
    requires MarksEnd(a, data, index, stream) && MarkSafe(a, data, stream) && stream != []
    ensures a.Push(data, index, true).eofKept ==> Has(a.Push(data, index, true), |stream| - 1)
  {
    PushFlags(a, data, index, true);
    PushHas(a, data, index, true, |stream| - 1);
    InSpan(|stream| - 1, index, |data|);
  }

  lemma MarkedOk(a: Assembly, data: seq<byte>, index: nat, stream: seq<byte>)
    requires MarksEnd(a, data, index, stream) && MarkSafe(a, data, stream)
    ensures MarkOk(a.Push(data, index, true), stream)
  {
    var b := a.Push(data, index, true);
    PushAgrees(a, data, index, true, stream);
    PushFlags(a, data, index, true);
    if stream != [] { MarkedHas(a, data, index, stream); }
    if b.eofKept && b.held == map[] { AllThere(b, stream); }
  }

  lemma MarkedEarly(a: Assembly, data: seq<byte>, index: nat, stream: seq<byte>)
    requires MarksEnd(a, data, index, stream) && !MarkSafe(a, data, stream)
    ensures !NeverEarly(a.Push(data, index, true), stream)
  {
    PushAgrees(a, data, index, true, stream);
    PushFlags(a, data, index, true);
    EndsEarly(a.Push(data, index, true), stream);
  }

  /** An end mark is harmless in every continuation if and only if it comes with data while there is room, or the
      last byte is there. */
  lemma EndsEarlyIff(a: Assembly, data: seq<byte>, index: nat, stream: seq<byte>)
    requires MarksEnd(a, data, index, stream)
    ensures NeverEarly(a.Push(data, index, true), stream) <==>
            (data != [] && a.out.Room() > 0) || stream == [] || Has(a, |stream| - 1)
  {
    if MarkSafe(a, data, stream) {
      MarkedOk(a, data, index, stream);
      StaysSafe(a.Push(data, index, true), stream);
    } else {
      MarkedEarly(a, data, index, stream);
    }
  }
}
