/** The summary of the sender's state that is computed from its counters alone. */
module TcpState {
  import opened TcpSender
  import opened SenderInvariant
  import opened SenderSteps

  datatype SenderSummary = ERROR | CLOSED | SYN_SENT | SYN_ACKED | FIN_SENT | FIN_ACKED

  function StateSummary(s: Sender): (r: SenderSummary)
    requires s.stream.Valid()
  {
    if s.stream.error then ERROR
    else if s.nextSeqno == 0 then CLOSED
    else if s.nextSeqno == s.bytesInFlight then SYN_SENT
    else if !s.stream.Eof() then SYN_ACKED
    else if s.nextSeqno < s.stream.Written() + 2 then SYN_ACKED
    else if s.bytesInFlight > 0 then FIN_SENT
    else FIN_ACKED
  }

  ghost predicate SynOutstanding(s: Sender)
  {
    exists e <- s.outstanding :: e.seg.header.syn
  }

  ghost predicate FinOutstanding(s: Sender)
  {
    exists e <- s.outstanding :: e.seg.header.fin
  }

  /** The SYN is outstanding exactly if nothing has been acknowledged. */
  lemma SynOutstandingIff(s: Sender)
    requires Tiling(s)
    ensures SynOutstanding(s) <==> s.outstanding != [] && Una(s) == 0
  {
    var m := s.outstanding;
    if m != [] && Una(s) == 0 {
      assert m[0] in m && m[0].seg.header.syn;
    }
    if e :| e in m && e.seg.header.syn {
      var n :| 0 <= n < |m| && m[n] == e;
      TilesDrop(m, Una(s), s.nextSeqno, s.isn, s.stream.history, s.finSent, n);
      assert m[n..][0] == e;
      assert LengthOf(m, n) == 0 - Una(s);
    }
  }

  /** Once sent, the FIN is outstanding exactly if anything is. */
  lemma FinOutstandingIff(s: Sender)
    requires Tiling(s) && Counting(s)
    ensures FinOutstanding(s) <==> s.finSent && s.outstanding != []
  {
    var m := s.outstanding;
    if s.finSent && m != [] {
      var n := |m| - 1;
      TilesDrop(m, Una(s), s.nextSeqno, s.isn, s.stream.history, s.finSent, n);
      assert m[n..][0] == m[n] && m[n..][1..] == [];
      assert m[n] in m && m[n].seg.header.fin;
    }
    if e :| e in m && e.seg.header.fin {
      var n :| 0 <= n < |m| && m[n] == e;
      TilesDrop(m, Una(s), s.nextSeqno, s.isn, s.stream.history, s.finSent, n);
      assert m[n..][0] == e;
    }
  }

  /** In every reachable state the counters tell the history: whether SYN and FIN have been sent and whether
      they have been acknowledged. */
  lemma SummaryIsHistory(s: Sender)
    requires Inv(s) && !s.stream.error
    ensures StateSummary(s) == CLOSED <==> !s.syn
    ensures StateSummary(s) == SYN_SENT <==> SynOutstanding(s)
    ensures StateSummary(s) == SYN_ACKED <==> s.syn && !SynOutstanding(s) && !s.finSent
    ensures StateSummary(s) == FIN_SENT <==> s.finSent && FinOutstanding(s) && !SynOutstanding(s)
    ensures StateSummary(s) == FIN_ACKED <==> s.finSent && s.outstanding == []
  {
    SynOutstandingIff(s);
    FinOutstandingIff(s);
    TilesOrdered(s.outstanding, Una(s), s.nextSeqno, s.isn, s.stream.history, s.finSent);
  }
}
