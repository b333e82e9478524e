/** Every operation of the sender keeps its invariant. */
module SenderSteps {
  import opened Machine
  import opened WrappingIntegers
  import opened TcpSender
  import opened SenderInvariant

  /** The lowest sequence number not acknowledged. */
  function Una(s: Sender): int { s.nextSeqno - s.bytesInFlight }

  /** The entries of a tiling are in order. */
  lemma {:induction false} TilesSorted(m: seq<Outstanding>, from: nat, to: nat, isn: u32, history: seq<byte>,
                                       finished: bool, n: nat)
    requires Tiles(m, from, to, isn, history, finished) && n < |m|
    ensures forall i :: 0 <= i < n ==> m[i].end < m[n].end
    ensures forall i :: n < i < |m| ==> m[n].end < m[i].end
    ensures from < m[n].end
  {
    if n > 0 {
      TilesSorted(m[1..], m[0].end, to, isn, history, finished, n - 1);
      assert forall i :: 0 < i < |m| ==> m[i] == m[1..][i - 1];
    } else {
      TilesAbove(m[1..], m[0].end, to, isn, history, finished);
      assert forall i :: 0 < i < |m| ==> m[i] == m[1..][i - 1];
    }
  }

  lemma {:induction false} TilesAbove(m: seq<Outstanding>, from: nat, to: nat, isn: u32, history: seq<byte>,
                                      finished: bool)
    requires Tiles(m, from, to, isn, history, finished)
    ensures forall i :: 0 <= i < |m| ==> from < m[i].end
  {
    if m != [] {
      TilesAbove(m[1..], m[0].end, to, isn, history, finished);
      assert forall i :: 0 < i < |m| ==> m[i] == m[1..][i - 1];
    }
  }

  /** On a segment boundary. */
  lemma ForgetFound(s: Sender, abs: u64, n: nat)
    requires Tiling(s) && n == Find(s.outstanding, abs) < |s.outstanding|
    ensures var s' := s.Forget(abs);
            && Tiling(s') && Una(s') == abs && s'.outstanding == s.outstanding[n + 1..]
            && (s'.outstanding == [] <==> abs == s.nextSeqno)
  {
    var rest := s.outstanding[n + 1..];
    TilesDrop(s.outstanding, Una(s), s.nextSeqno, s.isn, s.stream.history, s.finSent, n + 1);
    assert s.Forget(abs).outstanding == rest && Una(s.Forget(abs)) == abs;
    TilesOrdered(rest, abs, s.nextSeqno, s.isn, s.stream.history, s.finSent);
  }

  /** An acknowledgment at which no segment ends. */
  predicate InsideSegment(s: Sender, abs: nat)
  {
    forall o <- s.outstanding :: o.end != abs
  }

  lemma ForgetKeeps(s: Sender, abs: u64, n: nat, o: Outstanding)
    requires Tiling(s) && n == Find(s.outstanding, abs) < |s.outstanding|
    ensures o in s.outstanding[n + 1..] <==> o in s.outstanding && o.end > abs
  {
    var m := s.outstanding;
    TilesSorted(m, Una(s), s.nextSeqno, s.isn, s.stream.history, s.finSent, n);
    if o in m[n + 1..] {
      var i :| 0 <= i < |m[n + 1..]| && m[n + 1..][i] == o;
      assert m[i + n + 1] == o;
    }
    if o in m && o.end > abs {
      var i :| 0 <= i < |m| && m[i] == o;
      assert m[n + 1..][i - n - 1] == o;
    }
  }

  /** An acknowledgment on a segment boundary leaves exactly the segments that end after it; one inside a segment,
      or below all of them, leaves everything. */
  lemma ForgetTiles(s: Sender, abs: u64)
    requires Tiling(s) && abs <= s.nextSeqno
    ensures var s' := s.Forget(abs);
            && Tiling(s')
            && (InsideSegment(s, abs) ==> s' == s)
            && (!InsideSegment(s, abs) ==>
                  Una(s') == abs && forall o :: o in s'.outstanding <==> o in s.outstanding && o.end > abs)
            && (s'.outstanding == [] <==> s.outstanding == [] || abs == s.nextSeqno)
  {
    var n := Find(s.outstanding, abs);
    if n < |s.outstanding| {
      assert s.outstanding[n] in s.outstanding;
      ForgetFound(s, abs, n);
      forall o ensures o in s.Forget(abs).outstanding <==> o in s.outstanding && o.end > abs {
        ForgetKeeps(s, abs, n, o);
      }
    } else if abs == s.nextSeqno && s.outstanding != [] {
      TilesHasEnd(s.outstanding, Una(s), s.nextSeqno, s.isn, s.stream.history, s.finSent);
    }
  }

  /** An acknowledgment inside the window sets the usable window to exactly what its window leaves beyond the
      bytes sent: nothing is lost in the 16-bit field. */
  lemma AcknowledgeWindow(s: Sender, abs: u64, window: u16)
    requires abs <= s.nextSeqno <= abs + window
    ensures var s' := s.Acknowledge(abs, window);
            s'.nextSeqno == s.nextSeqno && s'.nextSeqno + s'.recvWdnSz == abs + Max(window, 1)
  {
  }

  lemma AcknowledgeTimes(s: Sender, abs: u64, window: u16)
    requires Tiling(s) && Timing(s) && abs <= s.nextSeqno
    ensures Timing(s.Acknowledge(abs, window))
  {
    var t := s.Noted(abs, window);
    ForgetTiles(t, abs);
    var emptied := t.Forget(abs).outstanding == [];
    assert emptied ==> s.outstanding == [] || abs > s.maxAbsSeqno;
    assert !emptied ==> s.outstanding != [] && abs < s.nextSeqno;
  }

  lemma RestartTiles(s: Sender, abs: u64)
    requires Tiling(s)
    ensures Tiling(s.Restart(abs))
  {
  }

  lemma AcknowledgeTiles(s: Sender, abs: u64, window: u16)
    requires Tiling(s) && abs <= s.nextSeqno
    ensures Tiling(s.Acknowledge(abs, window))
  {
    ForgetTiles(s.Noted(abs, window), abs);
    RestartTiles(s.Noted(abs, window).Forget(abs), abs);
  }

  lemma AcknowledgeInv(s: Sender, abs: u64, window: u16)
    requires Inv(s) && s.syn && abs <= s.nextSeqno <= abs + window
    ensures Inv(s.Acknowledge(abs, window)) && s.Acknowledge(abs, window).syn
  {
    var s' := s.Acknowledge(abs, window);
    AcknowledgeTiles(s, abs, window);
    AcknowledgeWindow(s, abs, window);
    AcknowledgeTimes(s, abs, window);
    QueuedGrow(s, s', []);
  }

  lemma AckAtInv(s: Sender, abs: u64, window: u16)
    requires Inv(s) && s.syn
    ensures Inv(s.AckAt(abs, window)) && s.AckAt(abs, window).syn
  {
    if abs <= s.nextSeqno {
      if abs + window < s.nextSeqno {
        QueuedGrow(s, s.(recvWdnSz := 0), []);
      } else {
        AcknowledgeInv(s, abs, window);
        FillWindowInv(s.Acknowledge(abs, window));
      }
    }
  }

  /** The absolute number an acknowledgment is taken for. */
  function AckAbs(s: Sender, ackno: u32): u64 { Unwrap(ackno, s.isn, s.absAckno) }

  lemma AckReceivedIs(s: Sender, ackno: u32, window: u16)
    requires s.stream.Valid()
    ensures s.AckReceived(ackno, window) == s.AckAt(AckAbs(s, ackno), window)
  {
  }

  lemma AckReceivedInv(s: Sender, ackno: u32, window: u16)
    requires Inv(s) && s.syn
    ensures Inv(s.AckReceived(ackno, window)) && s.AckReceived(ackno, window).syn
  {
    AckReceivedIs(s, ackno, window);
    AckAtInv(s, AckAbs(s, ackno), window);
  }

  function Pow2(n: nat): nat { if n == 0 then 1 else 2 * Pow2(n - 1) }

  function Doubled(x: nat, n: nat): nat { if n == 0 then x else 2 * Doubled(x, n - 1) }

  lemma {:induction false} DoubledIs(x: nat, n: nat)
    ensures Doubled(x, n) == x * Pow2(n)
  {
    if n > 0 {
      DoubledIs(x, n - 1);
      assert x * (2 * Pow2(n - 1)) == 2 * (x * Pow2(n - 1));
    }
  }

  lemma {:induction false} TimeoutWraps(initial: u16, n: nat)
    ensures Timeout(initial, n) == Trunc32(Doubled(initial, n))
  {
    if n > 0 {
      TimeoutWraps(initial, n - 1);
      DoubleWraps(Doubled(initial, n - 1));
    }
  }

  /** The timeout is the initial one times two to the number of retransmissions; the 32-bit field holds it for
      at least sixteen doublings. */
  lemma TimeoutIs(initial: u16, n: nat)
    ensures Timeout(initial, n) == Trunc32(initial * Pow2(n))
    ensures n <= 16 ==> Timeout(initial, n) == initial * Pow2(n)
  {
    TimeoutWraps(initial, n);
    DoubledIs(initial, n);
    if n <= 16 {
      Pow2Monotone(n, 16);
      SixteenDoublings();
      Product(initial, Pow2(n));
    }
  }

  lemma SixteenDoublings()
    ensures Pow2(16) == 0x1_0000
  {
    assert Pow2(4) == 16;
    assert Pow2(8) == 16 * Pow2(4);
    assert Pow2(12) == 16 * Pow2(8);
    assert Pow2(16) == 16 * Pow2(12);
  }

  lemma Product(x: nat, y: nat)
    requires x < 0x1_0000 && y <= 0x1_0000
    ensures x * y < 0x1_0000_0000
  {
    assert x * y <= x * 0x1_0000;
  }

  lemma {:induction false} Pow2Monotone(m: nat, n: nat)
    requires m <= n
    ensures Pow2(m) <= Pow2(n)
  {
    if m < n { Pow2Monotone(m, n - 1); }
  }

  lemma DoubleWraps(x: nat)
    ensures Trunc32(Trunc32(x) * 2) == Trunc32(x * 2)
  {
    Trunc32IsMod(x);
    Trunc32IsMod(x * 2);
    Trunc32IsMod(Trunc32(x) * 2);
    var q := x / 0x1_0000_0000;
    assert x * 2 == Trunc32(x) * 2 + 0x1_0000_0000 * (2 * q);
  }

  /** A tick either only lets time pass or sends the lowest outstanding segment again, exactly when the time
      since the last restart has reached the timeout; that counts as a retransmission unless the peer's window
      is closed. */
  lemma TickRetransmits(s: Sender, ms: nat)
    requires Inv(s)
    ensures var s' := s.Tick(ms);
            if s.outstanding != [] && s.timer.elapsed + ms >= s.timer.rto
            then && s'.segmentsOut == s.segmentsOut + [s.outstanding[0].seg]
                 && SentAt(s.outstanding[0].seg, Una(s), s.isn, s.stream.history, s.finSent)
                 && s'.timer.elapsed == 0
                 && s'.timer.retransmissions == s.timer.retransmissions + (if s.wdnSz > 0 then 1 else 0)
            else s' == s.(timer := s'.timer) && s'.timer == s.timer.(elapsed := s'.timer.elapsed)
  {
  }

  lemma TickInv(s: Sender, ms: nat)
    requires Inv(s)
    ensures Inv(s.Tick(ms))
  {
    var s' := s.Tick(ms);
    TickRetransmits(s, ms);
    if s.outstanding != [] && s.timer.elapsed + ms >= s.timer.rto {
      var seg := s.outstanding[0].seg;
      TilesOrdered(s.outstanding, Una(s), s.nextSeqno, s.isn, s.stream.history, s.finSent);
      assert SentAt(seg, Una(s), s'.isn, s'.stream.history, s'.finSent);
      assert Sendable(seg, s');
      QueuedGrow(s, s', [seg]);
    }
  }

  lemma SendEmptyInv(s: Sender)
    requires Inv(s)
    ensures Inv(s.SendEmptySegment())
  {
    var s' := s.SendEmptySegment();
    var seg := s'.segmentsOut[|s.segmentsOut|];
    assert SentAt(seg, s.nextSeqno, s'.isn, s'.stream.history, s'.finSent);
    assert Sendable(seg, s');
    QueuedGrow(s, s', [seg]);
  }

  /** A write that comes before the FIN, or adds nothing. */
  predicate MayWrite(s: Sender, data: seq<byte>)
    requires s.stream.Valid()
  {
    !s.finSent || Min(|data|, s.stream.Room()) == 0
  }

  /** The application may write as long as the FIN is not out, even after ending the stream. */
  lemma WriteInv(s: Sender, data: seq<byte>)
    requires Inv(s) && MayWrite(s, data)
    ensures Inv(s.(stream := s.stream.Write(data))) && Extends(s.(stream := s.stream.Write(data)), s)
  {
    var s' := s.(stream := s.stream.Write(data));
    if s.finSent { assert s'.stream.history == s.stream.history; }
    TilesGrow(s.outstanding, Una(s), s.nextSeqno, s.isn, s.stream.history, s.finSent, s'.stream.history, s'.finSent);
    QueuedGrow(s, s', []);
  }

  lemma CloseInv(s: Sender)
    requires Inv(s)
    ensures Inv(s.(stream := s.stream.(ended := true)))
  {
    QueuedGrow(s, s.(stream := s.stream.(ended := true)), []);
  }
}
