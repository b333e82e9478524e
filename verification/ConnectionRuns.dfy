/** Runs of one connection. */
module ConnectionRuns {
  import opened Machine
  import opened Segments
  import opened SenderSteps
  import opened SenderProgress
  import opened TcpConnection
  import opened ConnectionInvariant

  /** What can happen at an endpoint. */
  datatype Act =
    | Write(data: seq<byte>) | EndInput | Connect | Tick(ms: nat) | Receive(seg: TcpSegment) | Read(n: nat)

  function Do(c: Connection, act: Act): (c': Connection)
    requires c.Valid()
    ensures c'.Valid()
  {
    match act
    case Write(data) => c.Write(data)
    case EndInput => c.EndInputStream()
    case Connect => c.Connect()
    case Tick(ms) => c.Tick(ms)
    case Receive(seg) => c.SegmentReceived(seg)
    case Read(n) => c.Read(n)
  }

  function ActRun(c: Connection, acts: seq<Act>): (c': Connection)
    requires c.Valid()
    ensures c'.Valid()
  {
    if acts == [] then c else Do(ActRun(c, acts[..|acts| - 1]), acts[|acts| - 1])
  }

  function TimeOf(act: Act): nat { if act.Tick? then act.ms else 0 }

  /** The time that passes in a run. */
  function Elapsed(acts: seq<Act>): nat
  {
    if acts == [] then 0 else Elapsed(acts[..|acts| - 1]) + TimeOf(acts[|acts| - 1])
  }

  /** The application adds nothing to its stream once the FIN is out. */
  predicate MayDo(c: Connection, act: Act)
    requires c.Valid()
  {
    act.Write? ==> MayWrite(c.sender, act.data)
  }

  /** Everything but the reception of a segment. */
  lemma LocalKeeps(x: Connection, act: Act, peerSyn: bool)
    requires ConnInv(x, peerSyn) && !act.Receive? && MayDo(x, act)
    ensures ConnInv(Do(x, act), peerSyn) && Progress(x.sender, Do(x, act).sender)
  {
    match act
    case Write(data) => WriteKeeps(x, data, peerSyn);
    case EndInput => EndInputKeeps(x, peerSyn);
    case Connect => ConnectKeeps(x, peerSyn);
    case Tick(ms) => TickKeeps(x, ms, peerSyn);
    case Read(n) =>
  }
}
