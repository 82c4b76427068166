/** TCP segments inside IPv4 datagrams, from one address and port to another. */
module TcpOverIp {
  import opened Types
  import opened NetParsers
  import opened InternetChecksums
  import opened TcpSegments
  import TcpWire
  import opened Ipv4Wire

  datatype Address = Address(ip: u32, port: u16)

  datatype Adapter = Adapter(source: Address, destination: Address, listening: bool)
  {
    /** The segment with the port numbers of this connection. */
    function Addressed(seg: TcpSegment): TcpSegment {
      seg.(header := seg.header.(sport := source.port, dport := destination.port))
    }

    /** The datagram a segment is put into; `None` where its header cannot be serialized. */
    function WrapTcp(plain: TcpSegment): Option<Datagram> {
      var seg := Addressed(plain);
      var h := DEFAULT_IP_HEADER.(
        src := source.ip, dst := destination.ip, len := (20 + 4 * seg.header.doff + |seg.payload|) % TWO_16);
      match TcpWire.SegmentBytes(seg, PseudoChecksum(h))
      case None => None
      case Some(bytes) => Some(Datagram(h, bytes))
    }

    /** The segment in a datagram, if it is one of this connection, and the adapter afterwards. */
    function UnwrapTcp(d: Datagram): (Option<TcpSegment>, Adapter) {
      if !listening && d.header.dst != source.ip then (None, this)
      else if !listening && d.header.src != destination.ip then (None, this)
      else if d.header.proto != PROTO_TCP then (None, this)
      else
        match TcpWire.ParseSegment(d.payload, PseudoChecksum(d.header))
        case Rejected => (None, this)
        case Accepted(result, seg) =>
          if result != NoError then (None, this) else Matched(d.header, seg)
    }

    function Matched(h: Ipv4Header, seg: TcpSegment): (Option<TcpSegment>, Adapter) {
      if seg.header.dport != source.port then (None, this)
      else if listening && (!seg.header.syn || seg.header.rst) then (None, this)
      else
        var a := if listening then Adapter(Address(h.dst, source.port), Address(h.src, seg.header.sport), false)
            else this;
        if seg.header.sport != a.destination.port then (None, a) else (Some(seg), a)
    }
  }

  const PROTO_TCP: byte := 6

  /** The adapter at the other end of the connection of `a`. */
  function Mirror(a: Adapter): Adapter {
    Adapter(a.destination, a.source, false)
  }

  // ----- lengths -----

  /** The total length is kept in 16 bits; taking the header off again undoes any wrap-around. */
  lemma WrappedLength(a: Adapter, seg: TcpSegment, d: Datagram)
    requires a.WrapTcp(seg) == Some(d)
    ensures PayloadLength(d.header) == (4 * seg.header.doff + |seg.payload|) % TWO_16 && Serializable(d.header)
  {
    hide TcpWire.SegmentBytes;
  }

  /** A segment fits into a datagram exactly if it has at most 65535 bytes. The datagram then always
      comes out as it went in, and the segment exactly if its header length fits in four bits; both with
      their checksums filled in, and the segment with its port numbers. */
  lemma TcpInIpRoundTrip(a: Adapter, seg: TcpSegment, d: Datagram, before: Ipv4Header)
    requires a.WrapTcp(seg) == Some(d)
    ensures DatagramBytes(d).Some? <==> 4 * seg.header.doff + |seg.payload| <= 0xffff
    ensures DatagramBytes(d).Some? ==>
      var arrived := WithChecksum(d);
      && ParseDatagram(DatagramBytes(d).value, before) == (NoError, arrived)
      && (TcpWire.ParseSegment(arrived.payload, PseudoChecksum(arrived.header))
            == TcpWire.Accepted(NoError, TcpWire.WithChecksum(a.Addressed(seg), PseudoChecksum(d.header)))
          <==> seg.header.doff <= 15)
  {
    hide ParseDatagram, TcpWire.ParseSegment, TcpWire.HeaderBytes, Checksum, HeaderBytes, PseudoChecksum, PayloadLength;
    var sent := a.Addressed(seg);
    PseudoSmall(d.header);
    TcpWire.SerializedLength(sent, PseudoChecksum(d.header));
    WrappedLength(a, seg, d);
    if DatagramBytes(d).Some? {
      PseudoIgnoresChecksum(d.header, WithChecksum(d).header.cksum);
      TcpWire.SegmentRoundTrip(sent, PseudoChecksum(d.header));
      DatagramRoundTrip(d, before);
    }
  }

  // ----- who gets it -----

  /** Which segments an adapter takes from the connection of `a`: a connected one exactly those of its own
      connection, a listening one exactly a SYN without RST to its port. */
  predicate Takes(b: Adapter, a: Adapter, seg: TcpSegment) {
    if b.listening then a.destination.port == b.source.port && seg.header.syn && !seg.header.rst
    else b == Mirror(a)
  }

  lemma MatchedExactly(b: Adapter, a: Adapter, h: Ipv4Header, seg: TcpSegment)
    requires h.src == a.source.ip && h.dst == a.destination.ip
    requires seg.header.sport == a.source.port && seg.header.dport == a.destination.port
    requires b.listening || (h.dst == b.source.ip && h.src == b.destination.ip)
    ensures b.Matched(h, seg) == if Takes(b, a, seg) then (Some(seg), Mirror(a)) else (None, b)
  {
  }

  /** From adapter to adapter: what `a` sends, serialized and parsed, is taken by `b` exactly if it is for
      it, comes out as it was sent with port numbers and checksum, and leaves `b` the mirror of `a`;
      anything else `b` ignores and stays as it is. */
  lemma Crossing(a: Adapter, b: Adapter, seg: TcpSegment, d: Datagram, before: Ipv4Header)
    requires a.WrapTcp(seg) == Some(d) && DatagramBytes(d).Some? && seg.header.doff <= 15
    ensures
      var arrived := ParseDatagram(DatagramBytes(d).value, before);
      && arrived.0 == NoError
      && b.UnwrapTcp(arrived.1) ==
           if Takes(b, a, seg) then (Some(TcpWire.WithChecksum(a.Addressed(seg), PseudoChecksum(d.header))), Mirror(a))
           else (None, b)
  {
    hide ParseDatagram, TcpWire.ParseSegment, TcpWire.Checksum, Checksum, DatagramBytes, Adapter.Matched, Takes;
    TcpInIpRoundTrip(a, seg, d, before);
    var sent := TcpWire.WithChecksum(a.Addressed(seg), PseudoChecksum(d.header));
    var h := WithChecksum(d).header;
    if b.listening || (h.dst == b.source.ip && h.src == b.destination.ip) {
      MatchedExactly(b, a, h, sent);
      TakesIgnoresFields(b, a, seg, sent);
    } else {
      NotTaken(b, a, seg);
    }
  }

  lemma TakesIgnoresFields(b: Adapter, a: Adapter, seg: TcpSegment, sent: TcpSegment)
    requires sent.header.syn == seg.header.syn && sent.header.rst == seg.header.rst
    ensures Takes(b, a, sent) == Takes(b, a, seg)
  {
  }

  lemma NotTaken(b: Adapter, a: Adapter, seg: TcpSegment)
    requires !b.listening && (a.destination.ip != b.source.ip || a.source.ip != b.destination.ip)
    ensures !Takes(b, a, seg)
  {
  }

  /** What an adapter takes, from any datagram at all: only a TCP segment whose checksum holds with the
      pseudo-header, to its port; and once connected only from its peer, to its address. */
  lemma TakesOnly(b: Adapter, d: Datagram)
    ensures
      var (seg, b') := b.UnwrapTcp(d);
      && (seg.Some? ==>
            && d.header.proto == 6 && Value(SumOf(PseudoHeader(d.header) + d.payload, false) % TWO_32) == 0
            && seg.value.header.dport == b.source.port
            && (if b.listening then seg.value.header.syn && !seg.value.header.rst
                else d.header.dst == b.source.ip && d.header.src == b.destination.ip
                     && seg.value.header.sport == b.destination.port && b' == b))
      && (seg.None? ==> b' == b)
  {
    hide SumOf, Value, TcpWire.ParseHeader, PseudoHeader, PseudoChecksum;
    PseudoExactly(d.header, d.payload);
  }

  /** The checksum in a wrapped segment is the one of the pseudo-header followed by the segment. */
  lemma WrappedChecks(a: Adapter, seg: TcpSegment, d: Datagram)
    requires a.WrapTcp(seg) == Some(d) && 4 * seg.header.doff + |seg.payload| <= 0xffff
    ensures
      var len := (20 + |d.payload|) % TWO_16;
      d.header == Ipv4Header(4, 5, 0, len, 0, true, false, 0, 128, 6, 0, a.source.ip, a.destination.ip)
    ensures Value(SumOf(PseudoHeader(d.header) + d.payload, false) % TWO_32) == 0
  {
    hide SumOf, Value, PseudoHeader, PseudoChecksum, TcpWire.HeaderBytes, TcpWire.WithChecksum;
    var sent := a.Addressed(seg);
    PseudoSmall(d.header);
    TcpWire.SerializedLength(sent, PseudoChecksum(d.header));
    TcpWire.SerializedChecks(sent, PseudoChecksum(d.header));
    PseudoExactly(d.header, d.payload);
  }

  // ----- the object -----

  class TcpOverIpv4Adapter {
    var source: Address
    var destination: Address
    var listening: bool

    ghost function State(): Adapter
      reads this
    {
      Adapter(source, destination, listening)
    }

    constructor (source: Address, destination: Address, listening: bool)
      ensures State() == Adapter(source, destination, listening)
    {
      this.source, this.destination, this.listening := source, destination, listening;
    }

    /** The caller's segment gets the port numbers too. */
    method WrapTcpInIp(plain: TcpSegment) returns (seg: TcpSegment, d: Option<Datagram>)
      ensures seg == State().Addressed(plain) && d == State().WrapTcp(plain)
    {
      hide TcpWire.SegmentBytes;
      seg := plain.(header := plain.header.(sport := source.port, dport := destination.port));
      var h := DEFAULT_IP_HEADER.(src := source.ip, dst := destination.ip);
      h := h.(len := (h.hlen * 4 + seg.header.doff * 4 + |seg.payload|) % TWO_16);
      var bytes := TcpWire.SerializeTcpSegment(seg, PseudoChecksum(h));
      d := if bytes.Some? then Some(Datagram(h, bytes.value)) else None;
    }

    method UnwrapTcpInIp(d: Datagram) returns (result: Option<TcpSegment>)
      modifies this
      ensures (result, State()) == old(State()).UnwrapTcp(d)
    {
      hide TcpWire.ParseSegment;
      result := None;
      if !listening && d.header.dst != source.ip {
        return;
      }
      if !listening && d.header.src != destination.ip {
        return;
      }
      if d.header.proto != PROTO_TCP {
        return;
      }
      var parsed := TcpWire.ParseTcpSegment(d.payload, PseudoChecksum(d.header));
      if parsed.Rejected? || parsed.result != NoError {
        return;
      }
      result := MatchSegment(d.header, parsed.seg);
    }

    method MatchSegment(h: Ipv4Header, seg: TcpSegment) returns (result: Option<TcpSegment>)
      modifies this
      ensures (result, State()) == old(State()).Matched(h, seg)
    {
      if seg.header.dport != source.port {
        return None;
      }
      if listening {
        if seg.header.syn && !seg.header.rst {
          source := Address(h.dst, source.port);
          destination := Address(h.src, seg.header.sport);
          listening := false;
        } else {
          return None;
        }
      }
      if seg.header.sport != destination.port {
        return None;
      }
      return Some(seg);
    }
  }
}
