/** How far the sender goes: exactly up to the edge that the last acknowledgment leaves, stale ones included. */
module SenderEdges {
  import opened Machine
  import opened Segments
  import opened TcpSender
  import opened SenderInvariant
  import opened SenderSteps
  import opened SenderRuns

  /** The first sequence number past what the sender may use. */
  function Edge(s: Sender): nat { s.nextSeqno + s.recvWdnSz }

  /** The edge an acknowledgment leaves: what it offers, at least one number, or nothing beyond what is sent. */
  function EdgeAfter(s: Sender, abs: nat, window: nat): nat { Max(s.nextSeqno, abs + Max(window, 1)) }

  /** Once the SYN is out, every acknowledgment of no more than was sent leaves exactly its own window usable: one whose
      window ends before what is sent closes it, and a closed window leaves one number for a probe. An acknowledgment of
      more than was sent changes nothing. */
  lemma AckEdge(s: Sender, ackno: u32, window: u16)
    requires Inv(s) && s.syn
    ensures var s', abs := s.AckReceived(ackno, window), AckAbs(s, ackno);
            if abs > s.nextSeqno then s' == s else Edge(s') == EdgeAfter(s, abs, window)
  {
    var abs := AckAbs(s, ackno);
    AckReceivedIs(s, ackno, window);
    if abs <= s.nextSeqno <= abs + window {
      AcknowledgeInv(s, abs, window);
      AcknowledgeWindow(s, abs, window);
      FillWindowInv(s.Acknowledge(abs, window));
    }
  }

  /** The sequence numbers of the SYN, all bytes written so far, and the FIN if the stream has ended. */
  function Total(s: Sender): nat { 1 + |s.stream.history| + (if s.stream.ended then 1 else 0) }

  lemma {:induction false} LoopTakes(s: Sender, segment: TcpSegment)
    requires s.stream.Valid()
    ensures var t := s.FillLoop(segment).0; t.stream == s.stream.(read := t.stream.read)
    decreases s.stream.Size()
  {
    if s.stream.Size() > 0 && s.recvWdnSz > 0 {
      var (t, seg) := s.FillOne(segment);
      LoopTakes(t, seg);
    }
  }

  lemma FillTakes(s: Sender)
    requires s.stream.Valid()
    ensures s.FillWindow().stream == s.stream.(read := s.FillWindow().stream.read)
  {
    if s.syn { LoopTakes(s, EMPTY_SEGMENT); }
  }

  /** Filling the window sends exactly what there is to send, up to the edge. */
  lemma FillReaches(s: Sender)
    requires Inv(s) && s.syn
    ensures var s' := s.FillWindow(); s'.nextSeqno == Min(Edge(s), Total(s)) && Edge(s') == Edge(s)
  {
    FillWindowInv(s);
    FillTakes(s);
  }

  lemma ApplyKeepsEdge(s: Sender, op: Op)
    requires Inv(s) && s.syn && Enabled(s, op) && !op.Ack?
    ensures Edge(Apply(s, op)) == Edge(s) && Apply(s, op).syn
  {
    if op.Fill? { FillWindowInv(s); }
  }

  ghost predicate NoAcks(ops: seq<Op>)
  {
    forall op <- ops :: !op.Ack?
  }

  lemma {:induction false} RunKeepsEdge(s: Sender, ops: seq<Op>)
    requires Inv(s) && s.syn && Legal(s, ops) && NoAcks(ops)
    ensures var s' := Run(s, ops); Inv(s') && s'.syn && Edge(s') == Edge(s)
  {
    if ops != [] {
      var before, op := ops[..|ops| - 1], ops[|ops| - 1];
      assert op in ops;
      RunKeepsEdge(s, before);
      ApplyInv(Run(s, before), op);
      ApplyKeepsEdge(Run(s, before), op);
    }
  }

  /** Every segment queued ends at or before `edge`. */
  ghost predicate EndsBy(s: Sender, edge: nat)
  {
    forall seg <- s.segmentsOut ::
      exists from: nat :: from + seg.Length() <= edge && SentAt(seg, from, s.isn, s.stream.history, s.finSent)
  }

  lemma QueuedEndsBy(s: Sender, edge: nat)
    requires Inv(s) && s.nextSeqno <= edge
    ensures EndsBy(s, edge)
  {
    forall seg <- s.segmentsOut
      ensures exists from: nat :: from + seg.Length() <= edge && SentAt(seg, from, s.isn, s.stream.history, s.finSent)
    {
      assert Sendable(seg, s);
      var from: nat :| from + seg.Length() <= s.nextSeqno && SentAt(seg, from, s.isn, s.stream.history, s.finSent);
      assert from + seg.Length() <= edge;
    }
  }

  /** From one acknowledgment to the next the edge is the one it left, whatever else happens: no segment ends past it,
      and filling the window sends everything up to it that there is to send. */
  lemma EdgeHolds(s: Sender, ackno: u32, window: u16, ops: seq<Op>)
    requires Inv(s) && s.syn && AckAbs(s, ackno) <= s.nextSeqno
    requires Legal(s.AckReceived(ackno, window), ops) && NoAcks(ops)
    ensures var t, edge := Run(s.AckReceived(ackno, window), ops), EdgeAfter(s, AckAbs(s, ackno), window);
            && t.nextSeqno <= edge && EndsBy(t, edge)
            && t.FillWindow().nextSeqno == Min(edge, Total(t))
  {
    AckEdge(s, ackno, window);
    AckReceivedInv(s, ackno, window);
    RunKeepsEdge(s.AckReceived(ackno, window), ops);
    var t := Run(s.AckReceived(ackno, window), ops);
    QueuedEndsBy(t, Edge(t));
    FillReaches(t);
  }
}
