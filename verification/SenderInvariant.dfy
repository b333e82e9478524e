/** The invariant of the sender: what is outstanding, what has been sent, the window and the timer. */
module SenderInvariant {
  import opened Machine
  import opened WrappingIntegers
  import opened Segments
  import opened TcpSender
  import opened AssemblyRuns

  /** `seg` may be sent at absolute sequence number `from` for a stream whose bytes so far are `history`: the
      SYN is alone at zero, a payload is the matching slice of the stream, and a FIN, which only a finished
      stream has, takes the number after the last byte. */
  ghost predicate SentAt(seg: TcpSegment, from: nat, isn: u32, history: seq<byte>, finished: bool)
  {
    && seg.header.seqno == Wrap(from, isn)
    && (seg.header.syn ==> from == 0 && seg.payload == [] && !seg.header.fin)
    && (seg.payload != [] ==> from > 0 && IsSubstring(seg.payload, from - 1, history))
    && (seg.header.fin ==> finished && from + |seg.payload| == |history| + 1)
  }

  /** The sender itself sets neither flag: the connection adds them on the way out. */
  predicate Plain(seg: TcpSegment)
  {
    !seg.header.ack && !seg.header.rst
  }

  /** The entries are consecutive segments that take exactly the sequence numbers [from, to). */
  ghost predicate Tiles(m: seq<Outstanding>, from: nat, to: nat, isn: u32, history: seq<byte>, finished: bool)
  {
    if m == [] then from == to else
    && SentAt(m[0].seg, from, isn, history, finished) && Plain(m[0].seg)
    && m[0].seg.Length() > 0
    && m[0].end == from + m[0].seg.Length()
    && Tiles(m[1..], m[0].end, to, isn, history, finished)
  }

  lemma {:induction false} TilesAppend(m: seq<Outstanding>, from: nat, to: nat, isn: u32, history: seq<byte>,
                                       finished: bool, seg: TcpSegment)
    requires Tiles(m, from, to, isn, history, finished)
    requires SentAt(seg, to, isn, history, finished) && Plain(seg) && seg.Length() > 0
    ensures var e := Outstanding(to + seg.Length(), seg);
            Insert(m, e) == m + [e] && Tiles(m + [e], from, e.end, isn, history, finished)
    ensures from <= to && (m != [] ==> from < m[0].end <= to)
  {
    var e := Outstanding(to + seg.Length(), seg);
    if m == [] {
      assert (m + [e])[1..] == [];
    } else {
      TilesAppend(m[1..], m[0].end, to, isn, history, finished, seg);
      assert (m + [e])[1..] == m[1..] + [e];
    }
  }

  lemma {:induction false} TilesOrdered(m: seq<Outstanding>, from: nat, to: nat, isn: u32, history: seq<byte>,
                                        finished: bool)
    requires Tiles(m, from, to, isn, history, finished)
    ensures from <= to && (m != [] ==> from < m[0].end <= to)
    ensures m == [] <==> from == to
  {
    if m != [] { TilesOrdered(m[1..], m[0].end, to, isn, history, finished); }
  }

  /** More bytes in the stream do not change what has been sent before. */
  lemma {:induction false} TilesGrow(m: seq<Outstanding>, from: nat, to: nat, isn: u32, history: seq<byte>,
                                     finished: bool, history': seq<byte>, finished': bool)
    requires Tiles(m, from, to, isn, history, finished) && history <= history'
    requires finished ==> finished' && history == history'
    ensures Tiles(m, from, to, isn, history', finished')
  {
    if m != [] { TilesGrow(m[1..], m[0].end, to, isn, history, finished, history', finished'); }
  }

  function EndAt(m: seq<Outstanding>, from: nat, n: nat): nat
    requires n <= |m|
  {
    if n == 0 then from else m[n - 1].end
  }

  /** Dropping the first `n` entries leaves a tiling that starts where they end. */
  lemma {:induction false} TilesDrop(m: seq<Outstanding>, from: nat, to: nat, isn: u32, history: seq<byte>,
                                     finished: bool, n: nat)
    requires Tiles(m, from, to, isn, history, finished) && n <= |m|
    ensures Tiles(m[n..], EndAt(m, from, n), to, isn, history, finished)
    ensures LengthOf(m, n) == EndAt(m, from, n) - from
  {
    if n == 0 {
      assert m[0..] == m;
    } else {
      TilesDrop(m, from, to, isn, history, finished, n - 1);
      assert m[n - 1..][1..] == m[n..];
    }
  }

  lemma {:induction false} TilesHasEnd(m: seq<Outstanding>, from: nat, to: nat, isn: u32, history: seq<byte>,
                                       finished: bool)
    requires Tiles(m, from, to, isn, history, finished) && m != []
    ensures Find(m, to) < |m|
  {
    TilesOrdered(m, from, to, isn, history, finished);
    TilesOrdered(m[1..], m[0].end, to, isn, history, finished);
    if m[0].end != to { TilesHasEnd(m[1..], m[0].end, to, isn, history, finished); }
  }

  /** The outstanding segments tile [nextSeqno - bytesInFlight, nextSeqno). */
  ghost predicate Tiling(s: Sender)
  {
    && s.stream.Valid()
    && 0 <= s.bytesInFlight <= s.nextSeqno
    && Tiles(s.outstanding, s.nextSeqno - s.bytesInFlight, s.nextSeqno, s.isn, s.stream.history, s.finSent)
  }

  /** The next sequence number counts the SYN, the bytes taken from the stream and the FIN. */
  ghost predicate Counting(s: Sender)
  {
    && s.nextSeqno == (if s.syn then 1 else 0) + s.stream.read + (if s.finSent then 1 else 0)
    && (!s.syn ==> !s.finSent && s.stream.read == 0)
    && (s.finSent ==> s.stream.ended && s.stream.read == |s.stream.history|)
  }

  /** The usable window never reaches past the last acknowledgment taken plus its window (at least one). */
  ghost predicate Windowed(s: Sender)
  {
    && s.absAckno <= s.nextSeqno
    && (if s.syn then s.nextSeqno + s.recvWdnSz <= s.absAckno + Max(s.wdnSz, 1) else s.recvWdnSz == 0)
  }

  /** The timeout after `n` doublings, in 32 bits. */
  function Timeout(initial: u16, n: nat): u32
  {
    if n == 0 then initial else Trunc32(Timeout(initial, n - 1) * 2)
  }

  /** The timer is on exactly while something is outstanding; its timeout doubles with each retransmission. */
  ghost predicate Timing(s: Sender)
  {
    && (s.timer.on <==> s.outstanding != [])
    && s.maxAbsSeqno <= s.nextSeqno && (s.outstanding != [] ==> s.maxAbsSeqno < s.nextSeqno)
    && (s.outstanding == [] ==> s.timer.retransmissions == 0)
    && (s.timer.on ==> s.timer.rto == Timeout(s.initialRto, s.timer.retransmissions))
  }

  /** Everything in the output queue may be sent at some sequence number. */
  ghost predicate Queued(s: Sender)
  {
    forall seg <- s.segmentsOut :: Sendable(seg, s)
  }

  ghost predicate Sendable(seg: TcpSegment, s: Sender)
  {
    exists from ::
      0 <= from && from + seg.Length() <= s.nextSeqno && SentAt(seg, from, s.isn, s.stream.history, s.finSent)
  }

  ghost predicate Inv(s: Sender)
  {
    Tiling(s) && Counting(s) && Windowed(s) && Timing(s) && Queued(s)
  }

  lemma NewInv(capacity: nat, initialRto: u16, isn: u32)
    ensures Inv(NewSender(capacity, initialRto, isn))
  {
  }

  /** `s'` has sent no less than `s`, and the stream has only grown. */
  ghost predicate Extends(s': Sender, s: Sender)
  {
    && s'.isn == s.isn && s.nextSeqno <= s'.nextSeqno
    && s.stream.history <= s'.stream.history
    && (s.finSent ==> s'.finSent && s'.stream.history == s.stream.history)
  }

  lemma SendableGrow(seg: TcpSegment, s: Sender, s': Sender)
    requires Sendable(seg, s) && Extends(s', s)
    ensures Sendable(seg, s')
  {
    var from :| 0 <= from && from + seg.Length() <= s.nextSeqno &&
                SentAt(seg, from, s.isn, s.stream.history, s.finSent);
    assert SentAt(seg, from, s'.isn, s'.stream.history, s'.finSent);
  }

  lemma QueuedGrow(s: Sender, s': Sender, more: seq<TcpSegment>)
    requires Queued(s) && Extends(s', s) && s'.segmentsOut == s.segmentsOut + more
    requires forall seg <- more :: Sendable(seg, s')
    ensures Queued(s')
  {
    forall seg <- s'.segmentsOut ensures Sendable(seg, s') {
      if seg in s.segmentsOut { SendableGrow(seg, s, s'); }
    }
  }

  /** The segment that goes out when `segment` is sent. */
  function Numbered(s: Sender, segment: TcpSegment): TcpSegment
  {
    segment.(header := segment.header.(seqno := Wrap(s.nextSeqno, s.isn)))
  }

  lemma SendTiles(s: Sender, segment: TcpSegment)
    requires Tiling(s) && segment.Length() > 0 && Plain(segment)
    requires SentAt(Numbered(s, segment), s.nextSeqno, s.isn, s.stream.history, s.finSent)
    ensures Tiling(s.SendSegment(segment)) && s.SendSegment(segment).outstanding != []
    ensures s.SendSegment(segment).nextSeqno == s.nextSeqno + segment.Length()
  {
    var seg, s' := Numbered(s, segment), s.SendSegment(segment);
    TilesAppend(s.outstanding, s.nextSeqno - s.bytesInFlight, s.nextSeqno, s.isn, s.stream.history, s.finSent, seg);
    assert s'.outstanding == s.outstanding + [Outstanding(s.nextSeqno + seg.Length(), seg)];
  }

  lemma SendTimes(s: Sender, segment: TcpSegment)
    requires Timing(s) && segment.Length() > 0 && s.SendSegment(segment).outstanding != []
    ensures Timing(s.SendSegment(segment))
  {
  }

  lemma SendQueues(s: Sender, segment: TcpSegment)
    requires Queued(s)
    requires SentAt(Numbered(s, segment), s.nextSeqno, s.isn, s.stream.history, s.finSent)
    ensures Queued(s.SendSegment(segment))
  {
    var s' := s.SendSegment(segment);
    var seg := Numbered(s, segment);
    assert SentAt(seg, s.nextSeqno, s'.isn, s'.stream.history, s'.finSent);
    assert Sendable(seg, s');
    QueuedGrow(s, s', [seg]);
  }

  /** The three parts of the invariant that do not depend on the counters. */
  ghost predicate Sound(s: Sender)
  {
    Tiling(s) && Timing(s) && Queued(s)
  }

  lemma SendSound(s: Sender, segment: TcpSegment)
    requires Sound(s) && segment.Length() > 0 && Plain(segment)
    requires SentAt(Numbered(s, segment), s.nextSeqno, s.isn, s.stream.history, s.finSent)
    ensures var s' := s.SendSegment(segment);
            && Sound(s') && s'.nextSeqno == s.nextSeqno + segment.Length()
            && s'.recvWdnSz == s.recvWdnSz && s'.stream == s.stream && s'.syn == s.syn && s'.finSent == s.finSent
            && s'.absAckno == s.absAckno && s'.wdnSz == s.wdnSz
  {
    SendTiles(s, segment);
    SendTimes(s, segment);
    SendQueues(s, segment);
  }

  lemma SendSynInv(s: Sender)
    requires Inv(s) && !s.syn
    ensures Inv(s.FillWindow()) && s.FillWindow().nextSeqno == 1
  {
    var s1 := s.(syn := true);
    var segment := EMPTY_SEGMENT.(header := DEFAULT_HEADER.(syn := true));
    TilesOrdered(s.outstanding, s.nextSeqno - s.bytesInFlight, s.nextSeqno, s.isn, s.stream.history, s.finSent);
    assert Queued(s1) by { QueuedGrow(s, s1, []); }
    SendSound(s1, segment);
  }

  /** The number of bytes the next segment takes, and whether the FIN goes with it. */
  function TakeCount(s: Sender): nat
    requires s.stream.Valid()
  {
    Min(s.NextRead(), s.stream.Size())
  }

  predicate TakesFin(s: Sender)
    requires s.stream.Valid()
  {
    s.stream.ended && TakeCount(s) == s.stream.Size() && TakeCount(s) < s.recvWdnSz
  }

  function TakenSegment(s: Sender): TcpSegment
    requires s.stream.Valid()
  {
    TcpSegment(DEFAULT_HEADER.(fin := TakesFin(s)), s.stream.Peek(s.NextRead()))
  }

  /** The sender with the bytes taken from the stream and charged to the window, before they are sent. */
  function Taken(s: Sender): Sender
    requires s.stream.Valid()
  {
    s.(stream := s.stream.Pop(s.NextRead()), finSent := TakesFin(s),
       recvWdnSz := s.recvWdnSz - TakeCount(s) - (if TakesFin(s) then 1 else 0))
  }

  lemma TakenSound(s: Sender)
    requires Sound(s) && !s.finSent
    ensures Sound(Taken(s))
  {
    var t := Taken(s);
    TilesGrow(s.outstanding, s.nextSeqno - s.bytesInFlight, s.nextSeqno, s.isn, s.stream.history, s.finSent,
              t.stream.history, t.finSent);
    QueuedGrow(s, t, []);
  }

  /** One iteration of the loop takes and sends; the 16-bit subtractions from the window do not wrap. */
  lemma FillOneIs(s: Sender, segment: TcpSegment)
    requires s.stream.Valid() && !s.finSent && segment.header == DEFAULT_HEADER
    requires s.stream.Size() > 0 && s.recvWdnSz > 0
    ensures s.FillOne(segment) == (Taken(s).SendSegment(TakenSegment(s)), TakenSegment(s))
  {
  }

  lemma TakenSentAt(s: Sender)
    requires Counting(s) && s.stream.Valid() && s.syn && !s.finSent && s.stream.Size() > 0 && s.recvWdnSz > 0
    ensures var t, seg := Taken(s), TakenSegment(s);
            && |seg.payload| == TakeCount(s) > 0
            && SentAt(Numbered(t, seg), t.nextSeqno, t.isn, t.stream.history, t.finSent)
  {
  }

  lemma FillOneInv(s: Sender, segment: TcpSegment)
    requires Inv(s) && s.syn && !s.finSent
    requires s.stream.Size() > 0 && s.recvWdnSz > 0 && segment.header == DEFAULT_HEADER
    ensures var (s', seg) := s.FillOne(segment);
            && Inv(s') && s'.syn && s'.nextSeqno + s'.recvWdnSz == s.nextSeqno + s.recvWdnSz
            && (s'.finSent ==> s'.stream.Size() == 0)
            && (!s'.finSent ==> seg.header == DEFAULT_HEADER)
            && (!s'.finSent && s'.stream.Eof() ==> s'.recvWdnSz == 0)
  {
    FillOneIs(s, segment);
    TakenSound(s);
    TakenSentAt(s);
    SendSound(Taken(s), TakenSegment(s));
  }

  /** The loop drains the stream or exhausts the window; it moves nothing past the window, and if it has run
      without sending the FIN then none can follow in the same call. */
  lemma {:induction false} FillLoopInv(s: Sender, segment: TcpSegment)
    requires Inv(s) && s.syn && (s.finSent || segment.header == DEFAULT_HEADER)
    ensures var (s', seg) := s.FillLoop(segment);
            && Inv(s') && s'.syn && s'.nextSeqno + s'.recvWdnSz == s.nextSeqno + s.recvWdnSz
            && (s'.stream.Size() == 0 || s'.recvWdnSz == 0)
            && (s'.finSent || seg.header == DEFAULT_HEADER)
            && (!s'.finSent && s'.stream.Eof() && s'.recvWdnSz > 0 ==> s' == s && seg == segment)
    decreases s.stream.Size()
  {
    if s.stream.Size() > 0 && s.recvWdnSz > 0 {
      var (t, seg) := s.FillOne(segment);
      FillOneInv(s, segment);
      FillLoopInv(t, seg);
    }
  }

  lemma FillFinInv(s: Sender, segment: TcpSegment)
    requires Inv(s) && s.syn && (s.finSent || segment.header == DEFAULT_HEADER)
    requires !s.finSent && s.stream.Eof() && s.recvWdnSz > 0 ==> segment.payload == []
    ensures var s' := s.FillFin(segment);
            && Inv(s') && s'.syn && s'.nextSeqno + s'.recvWdnSz == s.nextSeqno + s.recvWdnSz
            && s'.stream == s.stream && (s.recvWdnSz == 0 ==> s'.recvWdnSz == 0)
            && (s'.stream.Eof() ==> s'.finSent || s'.recvWdnSz == 0)
  {
    if !s.finSent && s.stream.Eof() && s.recvWdnSz > 0 {
      var seg := segment.(header := segment.header.(fin := true));
      var t := s.(recvWdnSz := s.recvWdnSz - 1, finSent := true);
      assert t.SendSegment(seg) == s.FillFin(segment);
      TilesGrow(s.outstanding, s.nextSeqno - s.bytesInFlight, s.nextSeqno, s.isn, s.stream.history, s.finSent,
                t.stream.history, t.finSent);
      QueuedGrow(s, t, []);
      SendSound(t, seg);
    }
  }

  /** Filling the window keeps the invariant, and once the SYN is out it keeps the right edge; it ends with
      the stream drained or the window used up, and with the FIN sent if both allow it. */
  lemma FillWindowInv(s: Sender)
    requires Inv(s)
    ensures var s' := s.FillWindow();
            && Inv(s') && s'.syn
            && (s.syn ==> s'.nextSeqno + s'.recvWdnSz == s.nextSeqno + s.recvWdnSz)
            && (s.syn ==> s'.stream.Size() == 0 || s'.recvWdnSz == 0)
            && (s.syn && s'.stream.Eof() ==> s'.finSent || s'.recvWdnSz == 0)
  {
    if !s.syn {
      SendSynInv(s);
    } else {
      var (t, seg) := s.FillLoop(EMPTY_SEGMENT);
      FillLoopInv(s, EMPTY_SEGMENT);
      FillFinInv(t, seg);
    }
  }
}
