/** The TCP header and segment as the endpoints see them. */
module TcpSegments {
  import opened Types

  datatype TcpHeader = TcpHeader(
    sport: u16, dport: u16, seqno: u32, ackno: u32, doff: byte,
    urg: bool, ack: bool, psh: bool, rst: bool, syn: bool, fin: bool,
    win: u16, cksum: u16, uptr: u16)

  /** A header as it is constructed: all zero, five words long. */
  const DEFAULT_HEADER := TcpHeader(0, 0, 0, 0, 5, false, false, false, false, false, false, 0, 0, 0)

  datatype TcpSegment = TcpSegment(header: TcpHeader, payload: seq<byte>)
  {
    function LengthInSequenceSpace(): nat {
      |payload| + (if header.syn then 1 else 0) + (if header.fin then 1 else 0)
    }
  }
}
