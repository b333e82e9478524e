/** The first steps of a connection, computed for any parameters; the runs that show why a hypothesis is needed start
    with them. */
module Handshakes {
  import opened Machine
  import opened WrappingIntegers
  import opened Segments
  import opened ByteStreams
  import opened Assembly
  import opened TcpSender
  import opened TcpReceiver

  /** The timeout, the capacity of all streams, the initial sequence numbers and the two bytes written. */
  datatype Setup = Setup(rt: u16, cap: u16, isnA: u32, isnB: u32, x: byte, y: byte)

  function Syn(isn: u32): TcpSegment { TcpSegment(DEFAULT_HEADER.(syn := true, seqno := isn), []) }

  function Data(isn: u32, x: byte): TcpSegment { TcpSegment(DEFAULT_HEADER.(seqno := Wrap(1, isn)), [x]) }

  function Acked(seg: TcpSegment, ackno: u32, win: u16): TcpSegment
  {
    seg.(header := seg.header.(ack := true, ackno := ackno, win := win))
  }

  function Empty(seqno: u32): TcpSegment { EMPTY_SEGMENT.(header := DEFAULT_HEADER.(ack := true, seqno := seqno)) }

  function Started(rt: u16): Timer { Timer(true, rt, 0, 0) }

  /** A sender whose SYN is out, with `history` waiting. */
  function Opening(u: Setup, isn: u32, history: seq<byte>, queue: seq<TcpSegment>): Sender
  {
    Sender(isn, u.rt, Stream(u.cap, history, 0, false, false), 1, [Outstanding(1, Syn(isn))], 1, queue, true, false,
           1, 0, 0, 0, Started(u.rt))
  }

  /** A sender whose SYN is acknowledged. */
  function Open(u: Setup, isn: u32, history: seq<byte>, queue: seq<TcpSegment>): Sender
  {
    Sender(isn, u.rt, Stream(u.cap, history, 0, false, false), 1, [], 0, queue, true, false,
           u.cap, 1, u.cap, 1, Timer(false, u.rt, 0, 0))
  }

  /** A sender that has sent one byte. */
  function Sent(u: Setup, isn: u32, x: byte, queue: seq<TcpSegment>): Sender
    requires u.cap > 0
  {
    Sender(isn, u.rt, Stream(u.cap, [x], 1, false, false), 2, [Outstanding(2, Data(isn, x))], 1, queue, true, false,
           u.cap, 1, u.cap - 1, 1, Started(u.rt))
  }

  lemma SynWraps(isn: u32)
    ensures Wrap(0, isn) == isn
  {
  }

  lemma Unwraps(n: nat, isn: u32, checkpoint: nat)
    requires n <= 2 && checkpoint <= 2
    ensures Unwrap(Wrap(n, isn), isn, checkpoint) == n
  {
    UnwrapWrap(n, isn, checkpoint);
  }

  // Senders

  lemma SendsSyn(u: Setup, isn: u32)
    ensures NewSender(u.cap, u.rt, isn).FillWindow() == Opening(u, isn, [], [Syn(isn)])
  {
    SynWraps(isn);
  }

  lemma Opens(u: Setup, isn: u32, history: seq<byte>, queue: seq<TcpSegment>)
    requires u.cap > 0
    ensures Opening(u, isn, history, queue).Acknowledge(1, u.cap) == Open(u, isn, history, queue)
  {
    var s := Opening(u, isn, history, queue).Noted(1, u.cap);
    assert s.recvWdnSz == u.cap;
    assert s.outstanding[1..] == [];
    assert LengthOf(s.outstanding, 1) == 1;
    assert s.Forget(1) == s.(outstanding := [], bytesInFlight := 0);
  }

  lemma SendsByte(u: Setup, isn: u32, x: byte, queue: seq<TcpSegment>)
    requires u.cap > 0
    ensures Open(u, isn, [x], queue).FillWindow() == Sent(u, isn, x, queue + [Data(isn, x)])
  {
    var s := Open(u, isn, [x], queue);
    var payload := s.stream.Peek(s.NextRead());
    assert payload == [x];
    var (t, seg) := s.FillOne(EMPTY_SEGMENT);
    assert t == Sent(u, isn, x, queue + [Data(isn, x)]);
    assert s.FillLoop(EMPTY_SEGMENT) == t.FillLoop(seg);
  }

  // Receivers

  /** A receiver that has the peer's SYN and nothing else, and one that has a byte as well. */
  function Synced(u: Setup, isn: u32): Receiver
  {
    Receiver(NewAssembly(u.cap), Wrap(1, isn), isn, 1, 0, true, false)
  }

  function Holding(u: Setup, isn: u32, x: byte): Receiver
  {
    Receiver(Assembly(Stream(u.cap, [x], 0, false, false), map[], false), Wrap(2, isn), isn, 2, 1, true, false)
  }

  lemma TakesSyn(u: Setup, isn: u32, seg: TcpSegment)
    requires seg.header.syn && !seg.header.fin && seg.header.seqno == isn && seg.payload == []
    ensures NewReceiver(u.cap).SegmentReceived(seg) == Synced(u, isn)
  {
    SynWraps(isn);
    Unwraps(0, isn, 0);
  }

  lemma PushesByte(cap: u16, x: byte)
    requires cap > 0
    ensures NewAssembly(cap).Push([x], 0, false) == Assembly(Stream(cap, [x], 0, false, false), map[], false)
  {
    var a := NewAssembly(cap);
    var all := Overlay(a.held, [x], 0);
    assert Cut([x], 0, 1) == [x];
    assert all == map[0 := x];
    FirstGapUnique(all.Keys, 0, 1);
    assert From(all, 1) == map[];
  }

  lemma TakesByte(u: Setup, isn: u32, x: byte, seg: TcpSegment)
    requires u.cap > 0 && !seg.header.syn && !seg.header.fin
    requires seg.header.seqno == Wrap(1, isn) && seg.payload == [x]
    ensures Synced(u, isn).SegmentReceived(seg) == Holding(u, isn, x)
  {
    Unwraps(1, isn, 0);
    PushesByte(u.cap, x);
  }
}
