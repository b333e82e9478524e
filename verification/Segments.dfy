/** TCP segments (section 3.1 of RFC 793). */
module Segments {
  import opened Machine

  datatype TcpHeader = TcpHeader(
    sport: u16, dport: u16, seqno: u32, ackno: u32, doff: byte,
    urg: bool, ack: bool, psh: bool, rst: bool, syn: bool, fin: bool,
    win: u16, cksum: u16, uptr: u16)

  const DEFAULT_HEADER: TcpHeader :=
    TcpHeader(0, 0, 0, 0, 5, false, false, false, false, false, false, 0, 0, 0)

  datatype TcpSegment = TcpSegment(header: TcpHeader, payload: seq<byte>)
  {
    /** How many sequence numbers the segment takes: SYN and FIN take one each. */
    function Length(): nat
    {
      |payload| + (if header.syn then 1 else 0) + (if header.fin then 1 else 0)
    }
  }

  const EMPTY_SEGMENT: TcpSegment := TcpSegment(DEFAULT_HEADER, [])
}
