/** The sending half of a connection: cuts the outgoing stream into segments, keeps the unacknowledged ones
    for retransmission and runs the retransmission timer. */
module TcpSender {
  import opened Machine
  import opened WrappingIntegers
  import opened Segments
  import opened ByteStreams

  const MAX_PAYLOAD_SIZE: nat := 1452

  /** An entry of the ordered map of unacknowledged segments, keyed by the sequence number after the segment;
      the map is the sequence of its entries in key order. */
  datatype Outstanding = Outstanding(end: nat, seg: TcpSegment)

  /** Adds an entry, unless the key is taken. */
  function Insert(m: seq<Outstanding>, e: Outstanding): seq<Outstanding>
  {
    if m == [] || e.end < m[0].end then [e] + m
    else if e.end == m[0].end then m
    else [m[0]] + Insert(m[1..], e)
  }

  lemma {:induction false} InsertOnly(m: seq<Outstanding>, e: Outstanding, o: Outstanding)
    requires o in Insert(m, e)
    ensures o == e || o in m
  {
    if m != [] && e.end > m[0].end && o != m[0] { InsertOnly(m[1..], e, o); }
  }

  /** The place of the entry with the given key, or the number of entries if there is none. */
  function Find(m: seq<Outstanding>, end: nat): (n: nat)
    ensures n <= |m| && (n < |m| ==> m[n].end == end)
    ensures forall i :: 0 <= i < n ==> m[i].end != end
  {
    if m == [] || m[0].end == end then 0 else 1 + Find(m[1..], end)
  }

  /** The sequence numbers taken by the first `n` entries. */
  function LengthOf(m: seq<Outstanding>, n: nat): nat
    requires n <= |m|
  {
    if n == 0 then 0 else LengthOf(m, n - 1) + m[n - 1].seg.Length()
  }

  datatype Timer = Timer(on: bool, rto: u32, elapsed: nat, retransmissions: nat)
  {
    /** Starts the timer, unless it is on. */
    function Started(initial: u32): Timer
    {
      if on then this else this.(on := true, elapsed := 0, rto := initial)
    }
  }

  datatype Sender = Sender(
    isn: u32, initialRto: u16, stream: Stream, nextSeqno: nat,
    outstanding: seq<Outstanding>, bytesInFlight: int, segmentsOut: seq<TcpSegment>,
    syn: bool, finSent: bool,
    wdnSz: u16, absAckno: u64, recvWdnSz: u16, maxAbsSeqno: u64,
    timer: Timer)
  {
    function SendSegment(segment: TcpSegment): Sender
    {
      var seg := segment.(header := segment.header.(seqno := Wrap(nextSeqno, isn)));
      var next := nextSeqno + seg.Length();
      this.(bytesInFlight := bytesInFlight + seg.Length(),
            nextSeqno := next,
            segmentsOut := segmentsOut + [seg],
            outstanding := Insert(outstanding, Outstanding(next, seg)),
            timer := timer.Started(initialRto))
    }

    /** The bytes of the next segment: as many as the window and the largest payload allow. */
    function NextRead(): nat
    {
      if recvWdnSz > MAX_PAYLOAD_SIZE then MAX_PAYLOAD_SIZE else recvWdnSz
    }

    /** Cuts the next payload off the stream, with the FIN if it fits; `segment` is reused from one iteration
        of the window-filling loop to the next. */
    function Take(segment: TcpSegment): (r: (Sender, TcpSegment))
      requires stream.Valid()
      ensures r.0.stream == stream.Pop(NextRead())
    {
      var seg := segment.(payload := stream.Peek(NextRead()));
      var s := this.(stream := stream.Pop(NextRead()), recvWdnSz := Trunc16(recvWdnSz - seg.Length()));
      if s.stream.Eof() && s.recvWdnSz > 0 then
        (s.(finSent := true, recvWdnSz := Trunc16(s.recvWdnSz - 1)), seg.(header := seg.header.(fin := true)))
      else
        (s, seg)
    }

    /** One iteration of the window-filling loop. */
    function FillOne(segment: TcpSegment): (r: (Sender, TcpSegment))
      requires stream.Valid()
      ensures r.0.stream == stream.Pop(NextRead())
    {
      var (s, seg) := Take(segment);
      (if seg.Length() > 0 then s.SendSegment(seg) else s, seg)
    }

    function FillLoop(segment: TcpSegment): (r: (Sender, TcpSegment))
      requires stream.Valid()
      ensures r.0.stream.Valid()
      decreases stream.Size()
    {
      if stream.Size() > 0 && recvWdnSz > 0 then
        var (s, seg) := FillOne(segment);
        s.FillLoop(seg)
      else
        (this, segment)
    }

    /** A FIN that could not be piggy-backed, on the segment left over from the loop. */
    function FillFin(segment: TcpSegment): Sender
      requires stream.Valid()
    {
      if !finSent && stream.Eof() && recvWdnSz > 0 then
        this.(recvWdnSz := Trunc16(recvWdnSz - 1))
        .SendSegment(segment.(header := segment.header.(fin := true)))
        .(finSent := true)
      else this
    }

    function FillWindow(): (s: Sender)
      requires stream.Valid()
      ensures s.stream.Valid()
    {
      if !syn then
        this.(syn := true).SendSegment(EMPTY_SEGMENT.(header := DEFAULT_HEADER.(syn := true)))
      else
        var (s, seg) := FillLoop(EMPTY_SEGMENT);
        s.FillFin(seg)
    }

    /** Forgets the segments up to the one that ends at `abs`, if there is one. */
    function Forget(abs: u64): Sender
    {
      var n := Find(outstanding, abs);
      if n == |outstanding| then this else
      this.(outstanding := outstanding[n + 1..], bytesInFlight := bytesInFlight - LengthOf(outstanding, n + 1))
    }

    /** A newer acknowledgment than any before restarts the timer; the timer stops if nothing is left. */
    function Restart(abs: u64): Sender
    {
      var newer := abs > maxAbsSeqno;
      var elapsed := if outstanding == [] then timer.elapsed else 0;
      var t := if newer then timer.(rto := initialRto, retransmissions := 0, elapsed := elapsed) else timer;
      this.(maxAbsSeqno := if newer then abs else maxAbsSeqno, timer := t.(on := t.on && outstanding != []))
    }

    /** Records an acknowledgment and the usable window it leaves. */
    function Noted(abs: u64, window: u16): Sender
    {
      this.(absAckno := abs, wdnSz := window,
            recvWdnSz := if window == 0 then 1 else Trunc16(abs + window - nextSeqno))
    }

    /** An acknowledgment inside the window, up to and without refilling the window. */
    function Acknowledge(abs: u64, window: u16): Sender
    {
      Noted(abs, window).Forget(abs).Restart(abs)
    }

    function AckAt(abs: u64, window: u16): (s: Sender)
      requires stream.Valid()
      ensures s.stream.Valid()
    {
      if abs > nextSeqno then this
      else if abs + window < nextSeqno then this.(recvWdnSz := 0)
      else Acknowledge(abs, window).FillWindow()
    }

    function AckReceived(ackno: u32, window: u16): (s: Sender)
      requires stream.Valid()
      ensures s.stream.Valid()
    {
      AckAt(Unwrap(ackno, isn, absAckno), window)
    }

    function Tick(ms: nat): Sender
    {
      if !timer.on then this else
      var t := if outstanding != [] then timer.(elapsed := timer.elapsed + ms)
               else timer.(rto := initialRto, elapsed := 0);
      if t.elapsed < t.rto then this.(timer := t) else
      var t' := if wdnSz > 0 then t.(retransmissions := t.retransmissions + 1, rto := Trunc32(t.rto * 2)) else t;
      this.(segmentsOut := if outstanding == [] then segmentsOut else segmentsOut + [outstanding[0].seg],
            timer := t'.(elapsed := 0))
    }

    function SendEmptySegment(): Sender
    {
      this.(segmentsOut := segmentsOut +
        [EMPTY_SEGMENT.(header := DEFAULT_HEADER.(ack := true, seqno := Wrap(nextSeqno, isn)))])
    }
  }

  function NewSender(capacity: nat, initialRto: u16, isn: u32): (s: Sender)
    ensures s.stream.Valid()
  {
    Sender(isn, initialRto, NewStream(capacity), 0, [], 0, [], false, false, 1, 0, 0, 0, Timer(false, 0, 0, 0))
  }

  /** Nothing goes out with the window closed, or with nothing left to send. */
  lemma FillsNothing(s: Sender)
    requires s.stream.Valid() && s.syn
    requires s.recvWdnSz == 0 || (s.stream.Size() == 0 && (s.finSent || !s.stream.ended))
    ensures s.FillWindow() == s
  {
  }

  class TcpSender {
    const isn: u32
    const initialRto: u16
    const stream: ByteStream
    var nextSeqno: nat
    var outstanding: seq<Outstanding>
    var bytesInFlight: int
    var segmentsOut: seq<TcpSegment>
    var syn: bool
    var finSent: bool
    var wdnSz: u16
    var absAckno: u64
    var recvWdnSz: u16
    var maxAbsSeqno: u64
    var timerOn: bool
    var rto: u32
    var elapsed: nat
    var consecutiveRetransmissions: nat

    ghost predicate Valid()
      reads this, stream, stream.buf
    {
      stream.Valid()
    }

    ghost function View(): (s: Sender)
      reads this, stream, stream.buf
      requires Valid()
      ensures s.stream.Valid()
    {
      Sender(isn, initialRto, stream.View(), nextSeqno, outstanding, bytesInFlight, segmentsOut, syn, finSent,
             wdnSz, absAckno, recvWdnSz, maxAbsSeqno, Timer(timerOn, rto, elapsed, consecutiveRetransmissions))
    }

    constructor (capacity: nat, retxTimeout: u16, fixedIsn: u32)
      ensures Valid() && View() == NewSender(capacity, retxTimeout, fixedIsn)
      ensures fresh({this, stream, stream.buf})
    {
      isn, initialRto := fixedIsn, retxTimeout;
      stream := new ByteStream(capacity);
      nextSeqno, outstanding, bytesInFlight, segmentsOut := 0, [], 0, [];
      syn, finSent := false, false;
      wdnSz, absAckno, recvWdnSz, maxAbsSeqno := 1, 0, 0, 0;
      timerOn, rto, elapsed, consecutiveRetransmissions := false, 0, 0, 0;
    }

    method SendSegment(segment: TcpSegment)
      requires Valid()
      modifies this
      ensures Valid()
      ensures View() == old(View()).SendSegment(segment)
    {
      var seg := segment.(header := segment.header.(seqno := Wrap(nextSeqno, isn)));
      bytesInFlight := bytesInFlight + seg.Length();
      nextSeqno := nextSeqno + seg.Length();
      segmentsOut := segmentsOut + [seg];
      outstanding := Insert(outstanding, Outstanding(nextSeqno, seg));
      StartTimer();
    }

    method StartTimer()
      requires Valid()
      modifies this`elapsed, this`rto, this`timerOn
      ensures Valid()
      ensures View() == old(View()).(timer := old(View()).timer.Started(initialRto))
    {
      if !timerOn {
        elapsed := 0;
        rto := initialRto;
        timerOn := true;
      }
    }

    method Take(segment: TcpSegment) returns (seg: TcpSegment)
      requires Valid()
      modifies this, stream, stream.buf
      ensures Valid()
      ensures (View(), seg) == old(View()).Take(segment)
    {
      var payload := ReadNext();
      var eof := stream.Eof();
      seg := segment.(payload := payload);
      recvWdnSz := Trunc16(recvWdnSz - seg.Length());
      if eof && recvWdnSz > 0 {
        seg := seg.(header := seg.header.(fin := true));
        finSent := true;
        recvWdnSz := Trunc16(recvWdnSz - 1);
      }
    }

    method ReadNext() returns (payload: seq<byte>)
      requires Valid()
      modifies stream, stream.buf
      ensures Valid()
      ensures var s := old(View());
              payload == s.stream.Peek(s.NextRead()) && View() == s.(stream := s.stream.Pop(s.NextRead()))
    {
      if recvWdnSz > MAX_PAYLOAD_SIZE {
        payload := stream.Read(MAX_PAYLOAD_SIZE);
      } else {
        payload := stream.Read(recvWdnSz);
      }
    }

    method FillOne(segment: TcpSegment) returns (seg: TcpSegment)
      requires Valid()
      modifies this, stream, stream.buf
      ensures Valid()
      ensures (View(), seg) == old(View()).FillOne(segment)
    {
      seg := Take(segment);
      if seg.Length() > 0 {
        SendSegment(seg);
      }
    }

    method FillWindow()
      requires Valid()
      modifies this, stream, stream.buf
      ensures Valid()
      ensures View() == old(View()).FillWindow()
    {
      var segment := EMPTY_SEGMENT;
      if !syn {
        syn := true;
        SendSegment(segment.(header := segment.header.(syn := true)));
        return;
      }
      ghost var s := View();
      var size := stream.BufferSize();
      while size > 0 && recvWdnSz > 0
        invariant Valid() && size == View().stream.Size()
        invariant View().FillLoop(segment) == s.FillLoop(EMPTY_SEGMENT)
        decreases size
      {
        segment := FillOne(segment);
        size := stream.BufferSize();
      }
      FillFin(segment);
    }

    method FillFin(segment: TcpSegment)
      requires Valid()
      modifies this, stream, stream.buf
      ensures Valid()
      ensures View() == old(View()).FillFin(segment)
    {
      var eof := stream.Eof();
      if !finSent && eof && recvWdnSz > 0 {
        recvWdnSz := Trunc16(recvWdnSz - 1);
        SendSegment(segment.(header := segment.header.(fin := true)));
        finSent := true;
      }
    }

    method Forget(abs: u64)
      requires Valid()
      modifies this`outstanding, this`bytesInFlight
      ensures Valid()
      ensures View() == old(View()).Forget(abs)
    {
      var it := Find(outstanding, abs);
      if it != |outstanding| {
        for k := 0 to it
          invariant outstanding == old(outstanding)
          invariant bytesInFlight == old(bytesInFlight) - LengthOf(outstanding, k)
        {
          bytesInFlight := bytesInFlight - outstanding[k].seg.Length();
        }
        bytesInFlight := bytesInFlight - outstanding[it].seg.Length();
        outstanding := outstanding[it + 1..];
      }
    }

    method Restart(abs: u64)
      requires Valid()
      modifies this
      ensures Valid()
      ensures View() == old(View()).Restart(abs)
    {
      if abs > maxAbsSeqno {
        maxAbsSeqno := abs;
        rto := initialRto;
        consecutiveRetransmissions := 0;
        if outstanding != [] {
          elapsed := 0;
        }
      }
      if outstanding == [] {
        timerOn := false;
      }
    }

    method Acknowledge(abs: u64, window: u16)
      requires Valid()
      modifies this
      ensures Valid()
      ensures View() == old(View()).Acknowledge(abs, window)
    {
      Note(abs, window);
      Forget(abs);
      Restart(abs);
    }

    method Note(abs: u64, window: u16)
      requires Valid()
      modifies this`absAckno, this`wdnSz, this`recvWdnSz
      ensures Valid()
      ensures View() == old(View()).Noted(abs, window)
    {
      absAckno := abs;
      wdnSz := window;
      recvWdnSz := if window == 0 then 1 else Trunc16(abs + window - nextSeqno);
    }

    method AckAt(abs: u64, window: u16)
      requires Valid()
      modifies this, stream, stream.buf
      ensures Valid()
      ensures View() == old(View()).AckAt(abs, window)
    {
      if abs > nextSeqno {
        return;
      }
      if abs + window < nextSeqno {
        recvWdnSz := 0;
        return;
      }
      Acknowledge(abs, window);
      FillWindow();
    }

    method AckReceived(ackno: u32, window: u16)
      requires Valid()
      modifies this, stream, stream.buf
      ensures Valid()
      ensures View() == old(View()).AckReceived(ackno, window)
    {
      AckAt(Unwrap(ackno, isn, absAckno), window);
    }

    method Tick(ms: nat)
      requires Valid()
      modifies this
      ensures Valid()
      ensures View() == old(View()).Tick(ms)
    {
      if timerOn {
        if outstanding != [] {
          elapsed := elapsed + ms;
        } else {
          rto := initialRto;
          elapsed := 0;
        }
        if elapsed >= rto {
          if outstanding != [] {
            segmentsOut := segmentsOut + [outstanding[0].seg];
          }
          if wdnSz > 0 {
            consecutiveRetransmissions := consecutiveRetransmissions + 1;
            rto := Trunc32(rto * 2);
          }
          elapsed := 0;
        }
      }
    }

    method SendEmptySegment()
      requires Valid()
      modifies this
      ensures Valid()
      ensures View() == old(View()).SendEmptySegment()
    {
      var segment := EMPTY_SEGMENT;
      segment := segment.(header := segment.header.(ack := true, seqno := Wrap(nextSeqno, isn)));
      segmentsOut := segmentsOut + [segment];
    }
  }
}
