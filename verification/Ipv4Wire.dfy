/** IPv4 datagrams on the wire. */
module Ipv4Wire {
  import opened Types
  import opened NetParsers
  import opened InternetChecksums
  import opened HeaderFields
  import TcpWire

  const IP_LENGTH: nat := 20

  datatype Ipv4Header = Ipv4Header(
    ver: byte, hlen: byte, tos: byte, len: u16, id: u16, df: bool, mf: bool, offset: u16,
    ttl: byte, proto: byte, cksum: u16, src: u32, dst: u32)

  /** Widths: version and length, service, total length, identification, flags and fragment offset,
      time to live, protocol, checksum, source, destination. */
  const IP_FIELDS: seq<nat> := [1, 1, 2, 2, 2, 1, 1, 2, 4, 4]

  /** A header as it is constructed: version 4, five words, "don't fragment", protocol TCP. */
  const DEFAULT_IP_HEADER := Ipv4Header(4, 5, 0, 0, 0, true, false, 0, 128, 6, 0, 0, 0)

  /** An unsigned 16-bit difference. */
  function PayloadLength(h: Ipv4Header): u16 {
    (h.len - 4 * h.hlen) % TWO_16
  }

  function PseudoChecksum(h: Ipv4Header): u32 {
    h.src / TWO_16 + h.src % TWO_16 + h.dst / TWO_16 + h.dst % TWO_16 + h.proto + PayloadLength(h)
  }

  // ----- the header -----

  function FirstByte(h: Ipv4Header): byte {
    TcpWire.OffsetShift(h.ver);
    (h.ver * 16) % 256 + h.hlen % 16
  }

  function FragmentWord(h: Ipv4Header): u16 {
    TcpWire.Flag(h.df, 0x4000) + TcpWire.Flag(h.mf, 0x2000) + h.offset % 0x2000
  }

  function FieldsOf(h: Ipv4Header): (vals: seq<nat>)
    ensures |vals| == |IP_FIELDS|
  {
    [FirstByte(h), h.tos, h.len, h.id, FragmentWord(h), h.ttl, h.proto, h.cksum, h.src, h.dst]
  }

  function HeaderOf(first: byte, tos: byte, len: u16, id: u16, fo: u16, ttl: byte, proto: byte, cksum: u16, src: u32,
                    dst: u32): Ipv4Header {
    Ipv4Header(first / 16, first % 16, tos, len, id, TcpWire.HasFlag(fo, 0x4000), TcpWire.HasFlag(fo, 0x2000),
        fo % 0x2000,
      ttl, proto, cksum, src, dst)
  }

  function HeaderFrom(p: Parser): Ipv4Header {
    var fs := IP_FIELDS;
    HeaderOf(Field8(p, fs, 0), Field8(p, fs, 1), Field16(p, fs, 2), Field16(p, fs, 3), Field16(p, fs, 4),
             Field8(p, fs, 5), Field8(p, fs, 6), Field16(p, fs, 7), Field32(p, fs, 8), Field32(p, fs, 9))
  }

  datatype Parsed = Parsed(result: ParseResult, header: Ipv4Header, parser: Parser)

  /** `before` is what the header object held; too short a packet leaves it as it was. */
  function ParseHeader(p: Parser, before: Ipv4Header): Parsed {
    var size := |p.buffer|;
    if size < IP_LENGTH then Parsed(PacketTooShort, before, p)
    else
      var h, q := HeaderFrom(p), After(p, IP_FIELDS, 10);
      if size < 4 * h.hlen then Parsed(PacketTooShort, h, q)
      else if h.ver != 4 then Parsed(WrongIPVersion, h, q)
      else if h.hlen < 5 then Parsed(HeaderTooShort, h, q)
      else if size != h.len then Parsed(TruncatedPacket, h, q)
      else
        var r := q.RemovePrefix(h.hlen * 4 - IP_LENGTH);
        if r.error != NoError then Parsed(r.error, h, r)
        else if Value(SumOf(p.buffer[..4 * h.hlen], false) % TWO_32) != 0 then Parsed(BadChecksum, h, r)
        else Parsed(NoError, h, r)
  }

  predicate Serializable(h: Ipv4Header) {
    h.ver == 4 && 4 * h.hlen >= IP_LENGTH
  }

  function HeaderBytes(h: Ipv4Header): (s: seq<byte>)
    requires Serializable(h)
  {
    Encode(FieldsOf(h), IP_FIELDS) + Zeros(4 * h.hlen - IP_LENGTH)
  }

  // ----- the datagram -----

  datatype Datagram = Datagram(header: Ipv4Header, payload: seq<byte>)

  /** The result of parsing the header is not looked at. `before` is the header the object held. */
  function ParseDatagram(bytes: seq<byte>, before: Ipv4Header := DEFAULT_IP_HEADER): (ParseResult, Datagram) {
    var parsed := ParseHeader(Parser(bytes, NoError), before);
    var d := Datagram(parsed.header, parsed.parser.buffer);
    if |d.payload| != PayloadLength(d.header) then (PacketTooShort, d) else (parsed.parser.error, d)
  }

  function Checksum(h: Ipv4Header): u16
    requires Serializable(h)
  {
    var sum := SumOf(HeaderBytes(h.(cksum := 0)), false) % TWO_32;
    FoldMeaning(sum);
    Value(sum)
  }

  function WithChecksum(d: Datagram): Datagram
    requires Serializable(d.header)
  {
    d.(header := d.header.(cksum := Checksum(d.header)))
  }

  /** `None` where the original throws: a payload of the wrong size, or a header it cannot write. */
  function DatagramBytes(d: Datagram): Option<seq<byte>> {
    if |d.payload| != PayloadLength(d.header) || !Serializable(d.header) then None
    else Some(HeaderBytes(WithChecksum(d).header) + d.payload)
  }

  // ----- reading back -----

  lemma FieldsFit(h: Ipv4Header)
    ensures Fit(FieldsOf(h), IP_FIELDS)
  {
    hide Pow256, FragmentWord, FirstByte;
    Pow256Values();
  }

  lemma NibblesReadBack(h: Ipv4Header)
    requires h.ver == 4
    ensures FirstByte(h) / 16 == 4 && FirstByte(h) % 16 == h.hlen % 16
  {
  }

  lemma FragmentReadBack(h: Ipv4Header)
    ensures
      var w := FragmentWord(h);
      TcpWire.HasFlag(w, 0x4000) == h.df && TcpWire.HasFlag(w, 0x2000) == h.mf && w % 0x2000 == h.offset % 0x2000
  {
  }

  lemma HeaderFieldsReadBack(h: Ipv4Header, rest: seq<byte>)
    ensures
      var p, vals := Parser(Encode(FieldsOf(h), IP_FIELDS) + rest, NoError), FieldsOf(h);
      forall k :: 0 <= k < 10 ==> Field(p, IP_FIELDS, k) == vals[k]
  {
    hide Encode, Field, FragmentWord, Pow256;
    FieldsFit(h);
    var vals := FieldsOf(h);
    forall k | 0 <= k < 10 ensures Field(Parser(Encode(vals, IP_FIELDS) + rest, NoError), IP_FIELDS, k) == vals[k] {
      FieldsReadBack(vals, IP_FIELDS, rest, k);
    }
  }

  lemma HeaderReadBack(h: Ipv4Header, rest: seq<byte>)
    requires h.ver == 4
    ensures HeaderFrom(Parser(Encode(FieldsOf(h), IP_FIELDS) + rest, NoError))
      == h.(hlen := h.hlen % 16, offset := h.offset % 0x2000)
  {
    hide Encode, Field, FragmentWord, Pow256, TcpWire.HasFlag;
    HeaderFieldsReadBack(h, rest);
    NibblesReadBack(h);
    FragmentReadBack(h);
  }

  lemma AfterHeader(h: Ipv4Header, rest: seq<byte>)
    ensures After(Parser(Encode(FieldsOf(h), IP_FIELDS) + rest, NoError), IP_FIELDS, 10) == Parser(rest, NoError)
  {
    hide After;
    FieldsFit(h);
    AfterEncoded(FieldsOf(h), IP_FIELDS, rest, 10);
    assert FieldsOf(h)[10..] == [] && IP_FIELDS[10..] == [];
    assert Encode([], []) + rest == rest;
  }

  // ----- the checksum -----

  ghost function Before(h: Ipv4Header): seq<byte> {
    Encode(FieldsOf(h)[..7], IP_FIELDS[..7])
  }

  ghost function Behind(h: Ipv4Header): seq<byte>
    requires Serializable(h)
  {
    Encode([h.src, h.dst], [4, 4]) + Zeros(4 * h.hlen - IP_LENGTH)
  }

  lemma AroundChecksum(h: Ipv4Header)
    requires Serializable(h)
    ensures HeaderBytes(h) == Before(h) + Digits(h.cksum, 2) + Behind(h) && |Before(h)| == 10
      && |HeaderBytes(h)| == 4 * h.hlen
  {
    hide Digits, Encode, FragmentWord;
    var vals := FieldsOf(h);
    assert vals == vals[..7] + ([h.cksum] + [h.src, h.dst]) && IP_FIELDS == IP_FIELDS[..7] + ([2] + [4, 4]);
    EncodeAppend(vals[..7], [h.cksum] + [h.src, h.dst], IP_FIELDS[..7], [2] + [4, 4]);
    EncodeAppend([h.cksum], [h.src, h.dst], [2], [4, 4]);
    EncodeOne(h.cksum, 2);
    PartLengths(h);
    assert HeaderBytes(h) == Before(h) + (Digits(h.cksum, 2) + Encode([h.src, h.dst], [4, 4]))
        + Zeros(4 * h.hlen - IP_LENGTH)
                          == Before(h) + Digits(h.cksum, 2) + Behind(h);
  }

  lemma PartLengths(h: Ipv4Header)
    ensures |Before(h)| == 10 && |Encode([h.src, h.dst], [4, 4])| == 8
  {
    hide Encode, Digits;
    var l := IP_FIELDS[..7];
    EncodeLength(FieldsOf(h)[..7], l);
    EncodeLength([h.src, h.dst], [4, 4]);
    assert l == [1, 1, 2, 2, 2, 1, 1];
    assert l[1..] == [1, 2, 2, 2, 1, 1] && l[1..][1..] == [2, 2, 2, 1, 1];
    TotalOfFive();
    assert [4, 4][1..] == [4] && [4][1..] == [];
  }

  lemma TotalOfFive()
    ensures Total([2, 2, 2, 1, 1]) == 8
  {
    assert [2, 2, 2, 1, 1][1..] == [2, 2, 1, 1];
    assert [2, 2, 1, 1][1..] == [2, 1, 1];
    assert [2, 1, 1][1..] == [1, 1];
    assert [1, 1][1..] == [1] && [1][1..] == [];
    assert Total([2, 1, 1]) == 4;
  }

  lemma HeaderChecks(h: Ipv4Header)
    requires Serializable(h)
    ensures Value(SumOf(HeaderBytes(h.(cksum := Checksum(h))), false) % TWO_32) == 0
  {
    hide SumOf, Value, Digits, Encode, FieldsOf;
    var h0, h' := h.(cksum := 0), h.(cksum := Checksum(h));
    SameAround(h0, h');
    AroundChecksum(h0);
    AroundChecksum(h');
    NoOverflow(0, HeaderBytes(h0));
    NoOverflow(0, HeaderBytes(h'));
    FilledChecks(Before(h'), Behind(h'), 0, h'.cksum);
  }

  lemma SameAround(h0: Ipv4Header, h: Ipv4Header)
    requires Serializable(h) && h0 == h.(cksum := 0)
    ensures Before(h0) == Before(h) && Behind(h0) == Behind(h)
  {
    assert FieldsOf(h0)[..7] == FieldsOf(h)[..7];
  }

  // ----- round trips -----

  /** A header that the four bits of its length and the thirteen of its offset can hold, in a datagram
      of the length it names. */
  predicate WellFormed(d: Datagram) {
    d.header.ver == 4 && 5 <= d.header.hlen <= 15 && d.header.offset < 0x2000
        && d.header.len == 4 * d.header.hlen + |d.payload|
  }

  /** Where the fields are read and the parser stands behind them, before any check. */
  lemma FieldsThenRest(h: Ipv4Header, payload: seq<byte>)
    requires Serializable(h)
    ensures
      var p, pad := Parser(HeaderBytes(h) + payload, NoError), Zeros(4 * h.hlen - IP_LENGTH);
      && |p.buffer| == 4 * h.hlen + |payload| && p.buffer[..4 * h.hlen] == HeaderBytes(h)
      && HeaderFrom(p) == h.(hlen := h.hlen % 16, offset := h.offset % 0x2000)
      && After(p, IP_FIELDS, 10) == Parser(pad + payload, NoError)
  {
    hide Encode, HeaderFrom, After, FieldsOf;
    var pad := Zeros(4 * h.hlen - IP_LENGTH);
    assert HeaderBytes(h) + payload == Encode(FieldsOf(h), IP_FIELDS) + (pad + payload);
    HeaderReadBack(h, pad + payload);
    AfterHeader(h, pad + payload);
    AroundChecksum(h);
    assert (HeaderBytes(h) + payload)[..4 * h.hlen] == HeaderBytes(h);
  }

  /** The header parser reads a well-formed header whatever its checksum field, and finds fault with
      nothing but the checksum. */
  lemma HeaderParsed(h: Ipv4Header, payload: seq<byte>, before: Ipv4Header)
    requires WellFormed(Datagram(h, payload))
    ensures
      var parsed := ParseHeader(Parser(HeaderBytes(h) + payload, NoError), before);
      && parsed.header == h && parsed.parser == Parser(payload, NoError)
      && parsed.result == if Value(SumOf(HeaderBytes(h), false) % TWO_32) == 0 then NoError else BadChecksum
  {
    hide HeaderFrom, After, SumOf, Value, HeaderBytes;
    var pad := Zeros(4 * h.hlen - IP_LENGTH);
    FieldsThenRest(h, payload);
    assert (pad + payload)[|pad|..] == payload;
  }

  /** A header with its checksum passes every check of the header parser. */
  lemma HeaderRoundTrip(h: Ipv4Header, payload: seq<byte>, before: Ipv4Header)
    requires WellFormed(Datagram(h, payload)) && h.cksum == Checksum(h)
    ensures ParseHeader(Parser(HeaderBytes(h) + payload, NoError), before)
      == Parsed(NoError, h, Parser(payload, NoError))
  {
    hide ParseHeader, SumOf, Value, HeaderBytes;
    HeaderParsed(h, payload, before);
    HeaderChecks(h);
    assert h.(cksum := Checksum(h)) == h;
  }

  /** With any value in the checksum field, the datagram parser reports no error and returns the
      datagram: the verdict of the header parser on the checksum is not used. */
  lemma HeaderChecksumUnused(d: Datagram, c: u16, before: Ipv4Header)
    requires WellFormed(d)
    ensures
      var d' := d.(header := d.header.(cksum := c));
      ParseDatagram(HeaderBytes(d'.header) + d.payload, before) == (NoError, d')
  {
    hide ParseHeader, SumOf, Value, HeaderBytes;
    HeaderParsed(d.header.(cksum := c), d.payload, before);
  }

  /** Exactly when serializing and parsing a datagram gives it back with its checksum and no error: its
      header length and fragment offset fit their bits, and the total length does not count less than
      the header unless the header has no options. */
  predicate RoundTrips(d: Datagram) {
    d.header.hlen <= 15 && d.header.offset < 0x2000 && (d.header.len >= 4 * d.header.hlen || d.header.hlen == 5)
  }

  lemma MisfitReadsDifferently(h: Ipv4Header, payload: seq<byte>, before: Ipv4Header)
    requires Serializable(h) && !(h.hlen <= 15 && h.offset < 0x2000)
    ensures ParseHeader(Parser(HeaderBytes(h) + payload, NoError), before).header != h
  {
    hide HeaderFrom, After, SumOf, Value, HeaderBytes;
    FieldsThenRest(h, payload);
  }

  lemma ShortLengthStops(h: Ipv4Header, payload: seq<byte>, before: Ipv4Header)
    requires Serializable(h) && h.hlen <= 15 && h.offset < 0x2000 && h.len != 4 * h.hlen + |payload|
    ensures
      var p := Parser(HeaderBytes(h) + payload, NoError);
      ParseHeader(p, before) == Parsed(TruncatedPacket, h, Parser(Zeros(4 * h.hlen - IP_LENGTH) + payload, NoError))
  {
    hide HeaderFrom, After, SumOf, Value, HeaderBytes;
    FieldsThenRest(h, payload);
  }

  lemma LengthsAgree(h: Ipv4Header, payload: seq<byte>)
    requires |payload| == PayloadLength(h)
    ensures h.len == 4 * h.hlen + |payload| <==> h.len >= 4 * h.hlen
  {
  }

  /** Whatever the object parsed into held before. */
  lemma DatagramRoundTrip(d: Datagram, before: Ipv4Header)
    requires DatagramBytes(d).Some?
    ensures ParseDatagram(DatagramBytes(d).value, before) == (NoError, WithChecksum(d)) <==> RoundTrips(d)
  {
    hide ParseHeader, SumOf, Value, HeaderBytes, Checksum, PayloadLength;
    var h := WithChecksum(d).header;
    LengthsAgree(d.header, d.payload);
    PseudoIgnoresChecksum(d.header, h.cksum);
    if !(h.hlen <= 15 && h.offset < 0x2000) {
      MisfitReadsDifferently(h, d.payload, before);
    } else if WellFormed(d) {
      HeaderChecksumUnused(d, h.cksum, before);
    } else {
      ShortLengthStops(h, d.payload, before);
      assert h.hlen == 5 ==> Zeros(4 * h.hlen - IP_LENGTH) + d.payload == d.payload;
    }
  }

  lemma PseudoIgnoresChecksum(h: Ipv4Header, c: u16)
    ensures PayloadLength(h.(cksum := c)) == PayloadLength(h) && PseudoChecksum(h.(cksum := c)) == PseudoChecksum(h)
  {
  }

  // ----- the layout of section 3.1 of RFC 791 -----

  lemma Offsets()
    ensures
      var f := IP_FIELDS;
      && Offset(f, 0) == 0 && Offset(f, 1) == 1 && Offset(f, 2) == 2 && Offset(f, 3) == 4 && Offset(f, 4) == 6
      && Offset(f, 5) == 8 && Offset(f, 6) == 9 && Offset(f, 7) == 10 && Offset(f, 8) == 12 && Offset(f, 9) == 16
      && Offset(f, 10) == 20
  {
    var f := IP_FIELDS;
    assert Offset(f, 2) == Offset(f, 1) + 1 && Offset(f, 4) == Offset(f, 3) + 2;
    assert Offset(f, 6) == Offset(f, 5) + 1 && Offset(f, 8) == Offset(f, 7) + 2 && Offset(f, 10) == Offset(f, 9) + 4;
  }

  lemma FieldPlacedInHeader(h: Ipv4Header, k: nat)
    requires Serializable(h) && k < 10
    ensures
      var b, f := HeaderBytes(h), IP_FIELDS;
      |b| == 4 * h.hlen && Offset(f, k) <= Offset(f, k + 1) <= |b|
      && b[Offset(f, k)..Offset(f, k + 1)] == Digits(FieldsOf(h)[k], f[k])
  {
    hide Encode, Digits, FieldsOf;
    AroundChecksum(h);
    FieldPlaced(FieldsOf(h), IP_FIELDS, k, Zeros(4 * h.hlen - IP_LENGTH));
  }

  lemma ByteFieldInHeader(h: Ipv4Header, k: nat)
    requires Serializable(h) && k < 10 && IP_FIELDS[k] == 1 && FieldsOf(h)[k] < 256
    ensures
      var b, o := HeaderBytes(h), Offset(IP_FIELDS, k);
      o < |b| && b[o] == FieldsOf(h)[k]
  {
    hide Digits, HeaderBytes, FieldsOf;
    FieldPlacedInHeader(h, k);
    DigitsInOrder(FieldsOf(h)[k]);
    var b, o := HeaderBytes(h), Offset(IP_FIELDS, k);
    assert b[o] == b[o..o + 1][0];
  }

  /** Where each field of a serialized header lies. */
  lemma HeaderLayout(h: Ipv4Header)
    requires Serializable(h)
    ensures
      var b := HeaderBytes(h);
      && |b| == 4 * h.hlen && b[0] == 64 + h.hlen % 16 && b[1] == h.tos
      && b[2..4] == Digits(h.len, 2) && b[4..6] == Digits(h.id, 2)
      && b[6..8] == Digits((if h.df then 0x4000 else 0) + (if h.mf then 0x2000 else 0) + h.offset % 0x2000, 2)
      && b[8] == h.ttl && b[9] == h.proto && b[10..12] == Digits(h.cksum, 2)
      && b[12..16] == Digits(h.src, 4) && b[16..20] == Digits(h.dst, 4)
  {
    hide Digits, HeaderBytes, Offset;
    Offsets();
    ByteFieldInHeader(h, 0);
    ByteFieldInHeader(h, 1);
    FieldPlacedInHeader(h, 2);
    FieldPlacedInHeader(h, 3);
    FieldPlacedInHeader(h, 4);
    ByteFieldInHeader(h, 5);
    ByteFieldInHeader(h, 6);
    FieldPlacedInHeader(h, 7);
    FieldPlacedInHeader(h, 8);
    FieldPlacedInHeader(h, 9);
  }

  lemma HasFlagBits(w: nat)
    ensures TcpWire.HasFlag(w, 0x4000) == (w / 0x4000 % 2 == 1) && TcpWire.HasFlag(w, 0x2000) == (w / 0x2000 % 2 == 1)
  {
  }

  /** The same for reading: the fields of any 20 bytes. */
  lemma HeaderFields20(bytes: seq<byte>)
    requires |bytes| >= 20
    ensures
      var h := HeaderFrom(Parser(bytes, NoError));
      && h.ver == bytes[0] / 16 && h.hlen == bytes[0] % 16 && h.tos == bytes[1]
      && h.len == BigEndian(bytes[2..4]) && h.id == BigEndian(bytes[4..6]) && h.ttl == bytes[8] && h.proto == bytes[9]
      && h.cksum == BigEndian(bytes[10..12]) && h.src == BigEndian(bytes[12..16]) && h.dst == BigEndian(bytes[16..20])
      && var fo := BigEndian(bytes[6..8]);
         h.df == (fo / 0x4000 % 2 == 1) && h.mf == (fo / 0x2000 % 2 == 1) && h.offset == fo % 0x2000
  {
    hide BigEndian, Offset, Field, TcpWire.HasFlag;
    Offsets();
    HasFlagBits(BigEndian(bytes[6..8]));
    ByteFieldRead(bytes, IP_FIELDS, 0);
    ByteFieldRead(bytes, IP_FIELDS, 1);
    FieldRead(bytes, IP_FIELDS, 2);
    FieldRead(bytes, IP_FIELDS, 3);
    FieldRead(bytes, IP_FIELDS, 4);
    ByteFieldRead(bytes, IP_FIELDS, 5);
    ByteFieldRead(bytes, IP_FIELDS, 6);
    FieldRead(bytes, IP_FIELDS, 7);
    FieldRead(bytes, IP_FIELDS, 8);
    FieldRead(bytes, IP_FIELDS, 9);
  }

  /** What the header parser makes of any bytes: no error exactly if they hold 20 bytes, version 4, a header
      length of at least 5 words that they hold, their own number as total length, and a checksum that holds. */
  lemma HeaderVerdict(bytes: seq<byte>, before: Ipv4Header)
    ensures
      var parsed := ParseHeader(Parser(bytes, NoError), before);
      && (parsed.result == NoError <==>
            && |bytes| >= 20 && bytes[0] / 16 == 4 && 5 <= bytes[0] % 16 && 4 * (bytes[0] % 16) <= |bytes|
            && BigEndian(bytes[2..4]) == |bytes| && Value(SumOf(bytes[..4 * (bytes[0] % 16)], false) % TWO_32) == 0)
      && (parsed.result == NoError ==> parsed.parser == Parser(bytes[4 * (bytes[0] % 16)..], NoError))
  {
    hide HeaderFrom, After, Offset, SumOf, Value, BigEndian;
    Offsets();
    AfterFields(bytes, IP_FIELDS, 10);
    if |bytes| >= 20 {
      HeaderFields20(bytes);
      var n := 4 * (bytes[0] % 16);
      assert 20 <= n <= |bytes| ==> bytes[20..][n - 20..] == bytes[n..];
    }
  }

  /** The header takes up what it says: version 4, at least 5 words, and the whole as long as it says. */
  predicate Consistent(bytes: seq<byte>)
    requires |bytes| >= 20
  {
    && bytes[0] / 16 == 4 && 5 <= bytes[0] % 16 && 4 * (bytes[0] % 16) <= |bytes|
    && BigEndian(bytes[2..4]) == |bytes|
  }

  /** Where the parser itself stands after a header, whatever the verdict on it. */
  lemma ParserVerdict(bytes: seq<byte>, before: Ipv4Header)
    ensures
      var parsed := ParseHeader(Parser(bytes, NoError), before);
      && (|bytes| < 20 ==> parsed.header == before && parsed.parser == Parser(bytes, NoError))
      && (|bytes| >= 20 ==>
            && parsed.header == HeaderFrom(Parser(bytes, NoError))
            && parsed.parser == Parser(bytes[if Consistent(bytes) then 4 * (bytes[0] % 16) else 20..], NoError))
  {
    hide HeaderFrom, After, Offset, SumOf, Value, BigEndian;
    Offsets();
    AfterFields(bytes, IP_FIELDS, 10);
    if |bytes| >= 20 {
      HeaderFields20(bytes);
      var n := 4 * (bytes[0] % 16);
      assert 20 <= n <= |bytes| ==> bytes[20..][n - 20..] == bytes[n..];
    }
  }

  /** What the datagram parser makes of any bytes: the payload is what follows the header if that is
      consistent, else what follows the first 20 bytes; and there is no error exactly if its length is the
      16-bit difference of the two lengths named. Fewer than 20 bytes are all payload, under the old header. */
  lemma DatagramVerdict(bytes: seq<byte>, before: Ipv4Header)
    ensures
      var (result, d) := ParseDatagram(bytes, before);
      && (result == NoError || result == PacketTooShort)
      && if |bytes| < 20 then
           d == Datagram(before, bytes) && (result == NoError <==> |bytes| == (before.len - 4 * before.hlen) % TWO_16)
         else
           var n := 4 * (bytes[0] % 16);
           && d.payload == bytes[if Consistent(bytes) then n else 20..]
           && (result == NoError <==> Consistent(bytes) || |bytes| - 20 == (BigEndian(bytes[2..4]) - n) % TWO_16)
  {
    hide HeaderFrom, BigEndian, ParseHeader;
    ParserVerdict(bytes, before);
    if |bytes| >= 20 {
      HeaderFields20(bytes);
    }
  }

  // ----- the pseudo-header -----

  /** The 12 bytes that section 3.1 of RFC 793 puts before a segment for its checksum. */
  function PseudoHeader(h: Ipv4Header): (s: seq<byte>)
    ensures |s| == 12
  {
    Digits(h.src, 4) + Digits(h.dst, 4) + [0, h.proto] + Digits(PayloadLength(h), 2)
  }

  lemma LowWord(v: nat)
    ensures v / 256 % 256 * 256 + v % 256 == v % TWO_16
  {
    var a := v / 256;
    assert v == 256 * a + v % 256 && a == 256 * (a / 256) + a % 256;
  }

  lemma SumOfTwo(v: nat)
    ensures SumOf(Digits(v, 2), false) == v % TWO_16
  {
    hide Digits;
    DigitsInOrder(v);
    var a, b := v / 256 % 256, v % 256;
    assert [a, b][1..] == [b] && [b][1..] == [];
    assert SumOf([b], true) == b;
    assert SumOf([a, b], false) == a * 256 + b;
    LowWord(v);
  }

  lemma SumOfLong(v: u32)
    ensures SumOf(Digits(v, 4), false) == v / TWO_16 + v % TWO_16
  {
    hide Digits, SumOf;
    FourDigits(v);
    SumAppend(Digits(v / TWO_16, 2), Digits(v, 2), false);
    SumOfTwo(v / TWO_16);
    SumOfTwo(v);
  }

  lemma SumOfProtocol(proto: byte)
    ensures SumOf([0, proto], false) == proto
  {
    assert [0, proto][1..] == [proto] && [proto][1..] == [];
    assert SumOf([proto], true) == proto;
  }

  /** The pseudo checksum is the sum of the pseudo-header, so the checksum of a segment is that of the
      pseudo-header followed by the segment. */
  lemma PseudoExactly(h: Ipv4Header, bytes: seq<byte>)
    ensures PseudoChecksum(h) == SumOf(PseudoHeader(h), false)
    ensures PseudoChecksum(h) + SumOf(bytes, false) == SumOf(PseudoHeader(h) + bytes, false)
  {
    hide Digits, SumOf;
    var a, b, p, n := Digits(h.src, 4), Digits(h.dst, 4), [0, h.proto], Digits(PayloadLength(h), 2);
    SumOfLong(h.src);
    SumOfLong(h.dst);
    SumOfProtocol(h.proto);
    SumOfWord(PayloadLength(h));
    SumAppend(a, b, false);
    SumAppend(a + b, p, false);
    SumAppend(a + b + p, n, false);
    SumAppend(PseudoHeader(h), bytes, false);
  }

  lemma PseudoSmall(h: Ipv4Header)
    ensures PseudoChecksum(h) < TWO_31
  {
  }

  // ----- step by step -----

  method ParseIpHeader(p: NetParser, before: Ipv4Header) returns (result: ParseResult, h: Ipv4Header)
    modifies p
    ensures Parsed(result, h, p.State()) == ParseHeader(old(p.State()), before)
  {
    hide Parser.IntValue, Parser.AfterInt, TcpWire.HasFlag, SumOf, Value, HeaderFrom, After;
    h := before;
    var original := p.buffer;
    var size := |p.buffer|;
    if size < IP_LENGTH {
      return PacketTooShort, h;
    }
    h := ReadIpFields(p);
    if size < 4 * h.hlen {
      return PacketTooShort, h;
    }
    if h.ver != 4 {
      return WrongIPVersion, h;
    }
    if h.hlen < 5 {
      return HeaderTooShort, h;
    }
    if size != h.len {
      return TruncatedPacket, h;
    }
    p.RemovePrefix(h.hlen * 4 - IP_LENGTH);
    if p.error != NoError {
      return p.error, h;
    }
    var value := ChecksumOf(0, original[..4 * h.hlen]);
    if value != 0 {
      return BadChecksum, h;
    }
    result := NoError;
  }

  method ReadIpFields(p: NetParser) returns (h: Ipv4Header)
    modifies p
    ensures h == HeaderFrom(old(p.State())) && p.State() == After(old(p.State()), IP_FIELDS, 10)
  {
    hide Field, Parser.IntValue, Parser.AfterInt, TcpWire.HasFlag;
    ghost var start, fs := p.State(), IP_FIELDS;
    forall k | 0 <= k < 10 ensures Field(start, fs, k) == After(start, fs, k).IntValue(fs[k]) {
      FieldIsInt(start, fs, k);
    }
    var first := p.U8();
    assert p.State() == After(start, fs, 1);
    var tos := p.U8();
    assert p.State() == After(start, fs, 2);
    var len := p.U16();
    assert p.State() == After(start, fs, 3);
    var id := p.U16();
    assert p.State() == After(start, fs, 4);
    var fo := p.U16();
    assert p.State() == After(start, fs, 5);
    var ttl := p.U8();
    assert p.State() == After(start, fs, 6);
    var proto := p.U8();
    assert p.State() == After(start, fs, 7);
    var cksum := p.U16();
    assert p.State() == After(start, fs, 8);
    var src := p.U32();
    assert p.State() == After(start, fs, 9);
    var dst := p.U32();
    h := HeaderOf(first, tos, len, id, fo, ttl, proto, cksum, src, dst);
  }

  method SerializeIpHeader(h: Ipv4Header) returns (thrown: bool, ret: seq<byte>)
    ensures thrown <==> !Serializable(h)
    ensures !thrown ==> ret == HeaderBytes(h)
  {
    hide Digits, FragmentWord, Encode;
    if h.ver != 4 {
      return true, [];
    }
    if 4 * h.hlen < IP_LENGTH {
      return true, [];
    }
    thrown := false;
    ret := SerializeFirstFields(h);
    ghost var vals, fs := FieldsOf(h), IP_FIELDS;
    ret := PutField(ret, h.ttl, 1, vals, fs, 5);
    ret := PutField(ret, h.proto, 1, vals, fs, 6);
    ret := PutField(ret, h.cksum, 2, vals, fs, 7);
    ret := PutField(ret, h.src, 4, vals, fs, 8);
    ret := PutField(ret, h.dst, 4, vals, fs, 9);
    assert vals[..10] == vals && fs[..10] == fs;
    ret := ret + Zeros(4 * h.hlen - IP_LENGTH);
  }

  method SerializeFirstFields(h: Ipv4Header) returns (ret: seq<byte>)
    ensures ret == Encode(FieldsOf(h)[..5], IP_FIELDS[..5])
  {
    hide Digits, FragmentWord, Encode;
    ghost var vals, fs := FieldsOf(h), IP_FIELDS;
    EncodeNone(vals[..0], fs[..0]);
    ret := PutField([], (h.ver * 16) % 256 + h.hlen % 16, 1, vals, fs, 0);
    ret := PutField(ret, h.tos, 1, vals, fs, 1);
    ret := PutField(ret, h.len, 2, vals, fs, 2);
    ret := PutField(ret, h.id, 2, vals, fs, 3);
    ret := PutField(ret, FragmentWord(h), 2, vals, fs, 4);
  }

  method SerializeIpDatagram(d: Datagram) returns (bytes: Option<seq<byte>>)
    ensures bytes == DatagramBytes(d)
  {
    hide HeaderBytes, SumOf;
    if |d.payload| != PayloadLength(d.header) {
      return None;
    }
    var thrown, header := SerializeIpHeader(d.header.(cksum := 0));
    if thrown {
      return None;
    }
    var cksum := ChecksumOf(0, header);
    thrown, header := SerializeIpHeader(d.header.(cksum := cksum));
    bytes := Some(header + d.payload);
  }

  method ParseIpDatagram(buffer: seq<byte>, before: Ipv4Header) returns (result: ParseResult, d: Datagram)
    ensures (result, d) == ParseDatagram(buffer, before)
  {
    hide ParseHeader;
    var p := new NetParser(buffer);
    var _, h := ParseIpHeader(p, before);
    d := Datagram(h, p.buffer);
    if |d.payload| != PayloadLength(h) {
      return PacketTooShort, d;
    }
    result := p.error;
  }
}
