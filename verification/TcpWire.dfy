/** TCP segments on the wire. */
module TcpWire {
  import opened Types
  import opened NetParsers
  import opened InternetChecksums
  import opened HeaderFields
  import opened TcpSegments

  const TCP_LENGTH: nat := 20

  /** Widths: ports, sequence and acknowledgment number, offset, flags, window, checksum, urgent pointer. */
  const TCP_FIELDS: seq<nat> := [2, 2, 4, 4, 1, 1, 2, 2, 2]

  // ----- the flags -----

  function Flag(on: bool, weight: nat): nat {
    if on then weight else 0
  }

  /** The six flag bits do not overlap, so their bitwise "or" is their sum. */
  function FlagByte(h: TcpHeader): byte {
    Flag(h.urg, 32) + Flag(h.ack, 16) + Flag(h.psh, 8) + Flag(h.rst, 4) + Flag(h.syn, 2) + Flag(h.fin, 1)
  }

  function HasFlag(b: nat, weight: nat): bool
    requires weight > 0
  {
    (b / weight) % 2 == 1
  }

  lemma FlagsReadBack(h: TcpHeader)
    ensures
      var b := FlagByte(h);
      && HasFlag(b, 32) == h.urg && HasFlag(b, 16) == h.ack && HasFlag(b, 8) == h.psh
      && HasFlag(b, 4) == h.rst && HasFlag(b, 2) == h.syn && HasFlag(b, 1) == h.fin
  {
  }

  // ----- the header -----

  /** The fields of a header; the offset is shifted up and loses what does not fit in a byte. */
  function FieldsOf(h: TcpHeader): (vals: seq<nat>)
    ensures |vals| == |TCP_FIELDS|
  {
    [h.sport, h.dport, h.seqno, h.ackno, (h.doff * 16) % 256, FlagByte(h), h.win, h.cksum, h.uptr]
  }

  function HeaderOf(sport: u16, dport: u16, seqno: u32, ackno: u32, off: byte, fl: byte, win: u16, cksum: u16,
                    uptr: u16): TcpHeader {
    TcpHeader(sport, dport, seqno, ackno, off / 16,
      HasFlag(fl, 32), HasFlag(fl, 16), HasFlag(fl, 8), HasFlag(fl, 4), HasFlag(fl, 2), HasFlag(fl, 1),
      win, cksum, uptr)
  }

  datatype Parsed = Parsed(result: ParseResult, header: TcpHeader, parser: Parser)

  function HeaderFrom(p: Parser): TcpHeader {
    var fs := TCP_FIELDS;
    HeaderOf(Field16(p, fs, 0), Field16(p, fs, 1), Field32(p, fs, 2), Field32(p, fs, 3), Field8(p, fs, 4),
             Field8(p, fs, 5), Field16(p, fs, 6), Field16(p, fs, 7), Field16(p, fs, 8))
  }

  function ParseHeader(p: Parser): Parsed {
    var h, q := HeaderFrom(p), After(p, TCP_FIELDS, 9);
    if h.doff < 5 then Parsed(HeaderTooShort, h, q)
    else
      var r := q.RemovePrefix(h.doff * 4 - TCP_LENGTH);
      Parsed(r.error, h, r)
  }

  function HeaderBytes(h: TcpHeader): (s: seq<byte>)
    requires h.doff >= 5
  {
    Encode(FieldsOf(h), TCP_FIELDS) + Zeros(4 * h.doff - TCP_LENGTH)
  }

  lemma FieldsFit(h: TcpHeader)
    ensures Fit(FieldsOf(h), TCP_FIELDS)
  {
    Pow256Values();
  }

  lemma HeaderReadBack(h: TcpHeader, rest: seq<byte>)
    ensures HeaderFrom(Parser(Encode(FieldsOf(h), TCP_FIELDS) + rest, NoError)) == h.(doff := h.doff % 16)
  {
    hide Encode, Field, HasFlag, FlagByte, Pow256;
    HeaderFieldsReadBack(h, rest);
    FlagsReadBack(h);
    OffsetShift(h.doff);
  }

  lemma HeaderFieldsReadBack(h: TcpHeader, rest: seq<byte>)
    ensures
      var p, vals := Parser(Encode(FieldsOf(h), TCP_FIELDS) + rest, NoError), FieldsOf(h);
      forall k :: 0 <= k < 9 ==> Field(p, TCP_FIELDS, k) == vals[k]
  {
    hide Encode, Field, FlagByte, Pow256;
    FieldsFit(h);
    var vals := FieldsOf(h);
    forall k | 0 <= k < 9 ensures Field(Parser(Encode(vals, TCP_FIELDS) + rest, NoError), TCP_FIELDS, k) == vals[k] {
      FieldsReadBack(vals, TCP_FIELDS, rest, k);
    }
  }

  lemma OffsetShift(doff: byte)
    ensures (doff * 16) % 256 / 16 == doff % 16 && (doff * 16) % 256 <= 240
  {
    var q, r := doff / 16, doff % 16;
    assert doff * 16 == 256 * q + 16 * r;
    assert (doff * 16) % 256 == 16 * r;
  }

  lemma SkipPadding(n: nat, rest: seq<byte>)
    ensures Parser(Zeros(n) + rest, NoError).RemovePrefix(n) == Parser(rest, NoError)
  {
    assert (Zeros(n) + rest)[n..] == rest;
  }

  /** A serialized header parses back to itself, leaving what follows it, exactly if its length fits in
      the four bits there are for it. */
  lemma HeaderRoundTrip(h: TcpHeader, rest: seq<byte>)
    requires h.doff >= 5
    ensures
      var parsed := ParseHeader(Parser(HeaderBytes(h) + rest, NoError));
      (parsed == Parsed(NoError, h, Parser(rest, NoError)) <==> h.doff <= 15) && parsed.header.doff == h.doff % 16
  {
    hide Encode, HeaderFrom, After, FieldsOf, Zeros, Parser.RemovePrefix;
    var pad := Zeros(4 * h.doff - TCP_LENGTH);
    var p := Parser(HeaderBytes(h) + rest, NoError);
    assert HeaderBytes(h) + rest == Encode(FieldsOf(h), TCP_FIELDS) + (pad + rest);
    HeaderReadBack(h, pad + rest);
    AfterHeader(h, pad + rest);
    SkipPadding(4 * h.doff - TCP_LENGTH, rest);
  }

  // ----- the layout of section 3.1 of RFC 793 -----

  lemma Offsets()
    ensures
      var f := TCP_FIELDS;
      && Offset(f, 0) == 0 && Offset(f, 1) == 2 && Offset(f, 2) == 4 && Offset(f, 3) == 8 && Offset(f, 4) == 12
      && Offset(f, 5) == 13 && Offset(f, 6) == 14 && Offset(f, 7) == 16 && Offset(f, 8) == 18 && Offset(f, 9) == 20
  {
    var f := TCP_FIELDS;
    assert Offset(f, 2) == Offset(f, 1) + 2 && Offset(f, 4) == Offset(f, 3) + 4;
    assert Offset(f, 6) == Offset(f, 5) + 1 && Offset(f, 8) == Offset(f, 7) + 2;
  }

  lemma FieldPlacedInHeader(h: TcpHeader, k: nat)
    requires h.doff >= 5 && k < 9
    ensures
      var b, f := HeaderBytes(h), TCP_FIELDS;
      |b| == 4 * h.doff && Offset(f, k) <= Offset(f, k + 1) <= |b|
      && b[Offset(f, k)..Offset(f, k + 1)] == Digits(FieldsOf(h)[k], f[k])
  {
    hide Encode, Digits, FieldsOf;
    HeaderLength(h);
    FieldPlaced(FieldsOf(h), TCP_FIELDS, k, Zeros(4 * h.doff - TCP_LENGTH));
  }

  /** Where each field of a serialized header lies, and which bit each flag is. */
  lemma HeaderLayout(h: TcpHeader)
    requires h.doff >= 5
    ensures
      var b := HeaderBytes(h);
      && |b| == 4 * h.doff
      && b[0..2] == Digits(h.sport, 2) && b[2..4] == Digits(h.dport, 2)
      && b[4..8] == Digits(h.seqno, 4) && b[8..12] == Digits(h.ackno, 4) && b[12] == h.doff * 16 % 256
      && b[13] == (if h.urg then 32 else 0) + (if h.ack then 16 else 0) + (if h.psh then 8 else 0)
                + (if h.rst then 4 else 0) + (if h.syn then 2 else 0) + (if h.fin then 1 else 0)
      && b[14..16] == Digits(h.win, 2) && b[16..18] == Digits(h.cksum, 2) && b[18..20] == Digits(h.uptr, 2)
  {
    hide Digits, HeaderBytes, Offset;
    Offsets();
    FieldPlacedInHeader(h, 0);
    FieldPlacedInHeader(h, 1);
    FieldPlacedInHeader(h, 2);
    FieldPlacedInHeader(h, 3);
    ByteFieldsInHeader(h);
    FieldPlacedInHeader(h, 6);
    FieldPlacedInHeader(h, 7);
    FieldPlacedInHeader(h, 8);
  }

  lemma ByteFieldsInHeader(h: TcpHeader)
    requires h.doff >= 5
    ensures |HeaderBytes(h)| >= 20 && HeaderBytes(h)[12] == h.doff * 16 % 256 && HeaderBytes(h)[13] == FlagByte(h)
  {
    hide Digits, HeaderBytes, Offset, FlagByte;
    Offsets();
    FieldPlacedInHeader(h, 4);
    FieldPlacedInHeader(h, 5);
    DigitsInOrder(h.doff * 16 % 256);
    DigitsInOrder(FlagByte(h));
    var b := HeaderBytes(h);
    assert b[12] == b[12..13][0] && b[13] == b[13..14][0];
  }

  /** The same for reading: what the fields of any 20 bytes are. */
  lemma HeaderFields20(bytes: seq<byte>)
    requires |bytes| >= 20
    ensures
      var h, fl := HeaderFrom(Parser(bytes, NoError)), bytes[13];
      && h.sport == BigEndian(bytes[0..2]) && h.dport == BigEndian(bytes[2..4])
      && h.seqno == BigEndian(bytes[4..8]) && h.ackno == BigEndian(bytes[8..12]) && h.doff == bytes[12] / 16
      && h.urg == (fl / 32 % 2 == 1) && h.ack == (fl / 16 % 2 == 1) && h.psh == (fl / 8 % 2 == 1)
      && h.rst == (fl / 4 % 2 == 1) && h.syn == (fl / 2 % 2 == 1) && h.fin == (fl % 2 == 1)
      && h.win == BigEndian(bytes[14..16]) && h.cksum == BigEndian(bytes[16..18]) && h.uptr == BigEndian(bytes[18..20])
  {
    hide BigEndian, Offset, Field;
    Offsets();
    FieldRead(bytes, TCP_FIELDS, 0);
    FieldRead(bytes, TCP_FIELDS, 1);
    FieldRead(bytes, TCP_FIELDS, 2);
    FieldRead(bytes, TCP_FIELDS, 3);
    ByteFieldRead(bytes, TCP_FIELDS, 4);
    ByteFieldRead(bytes, TCP_FIELDS, 5);
    FieldRead(bytes, TCP_FIELDS, 6);
    FieldRead(bytes, TCP_FIELDS, 7);
    FieldRead(bytes, TCP_FIELDS, 8);
  }

  /** What the header parser makes of any bytes: no error exactly if they hold 20 bytes, the length they name
      is at least 5 words and they hold those; what is left is what follows. */
  lemma HeaderVerdict(bytes: seq<byte>)
    ensures
      var parsed := ParseHeader(Parser(bytes, NoError));
      && (parsed.result == NoError <==> |bytes| >= 20 && bytes[12] / 16 >= 5 && 4 * (bytes[12] / 16) <= |bytes|)
      && (parsed.result == NoError ==> parsed.parser == Parser(bytes[4 * (bytes[12] / 16)..], NoError))
  {
    hide HeaderFrom, After, Offset;
    Offsets();
    AfterFields(bytes, TCP_FIELDS, 9);
    if |bytes| >= 20 {
      HeaderFields20(bytes);
      var n := 4 * (bytes[12] / 16);
      assert 20 <= n <= |bytes| ==> bytes[20..][n - 20..] == bytes[n..];
    }
  }

  /** Where the parser itself stands after a header, whatever the verdict on it. */
  lemma ParserVerdict(bytes: seq<byte>)
    ensures
      var p := ParseHeader(Parser(bytes, NoError)).parser;
      && (p.error == NoError <==> |bytes| >= 20 && 4 * (bytes[12] / 16) <= |bytes|)
      && (p.error == NoError ==> p.buffer == bytes[Max(20, 4 * (bytes[12] / 16))..])
  {
    hide HeaderFrom, After, Offset;
    Offsets();
    AfterFields(bytes, TCP_FIELDS, 9);
    if |bytes| >= 20 {
      HeaderFields20(bytes);
      var n := 4 * (bytes[12] / 16);
      assert 20 <= n <= |bytes| ==> bytes[20..][n - 20..] == bytes[n..];
    }
  }

  /** What the segment parser makes of any bytes: rejected exactly if the checksum fails; else an error
      exactly if they are too short for the header they name, where a length under 5 words passes. */
  lemma SegmentVerdict(bytes: seq<byte>, pseudo: u32)
    ensures
      var parsed := ParseSegment(bytes, pseudo);
      && (parsed.Rejected? <==> Value((pseudo + SumOf(bytes, false)) % TWO_32) != 0)
      && (parsed.Accepted? ==>
            (parsed.result == NoError <==> |bytes| >= 20 && 4 * (bytes[12] / 16) <= |bytes|))
      && (parsed.Accepted? && parsed.result == NoError ==>
            parsed.seg.payload == bytes[Max(20, 4 * (bytes[12] / 16))..])
  {
    hide SumOf, Value, ParseHeader;
    ParserVerdict(bytes);
  }

  lemma AfterHeader(h: TcpHeader, rest: seq<byte>)
    ensures After(Parser(Encode(FieldsOf(h), TCP_FIELDS) + rest, NoError), TCP_FIELDS, 9) == Parser(rest, NoError)
  {
    hide After;
    FieldsFit(h);
    AfterEncoded(FieldsOf(h), TCP_FIELDS, rest, 9);
    assert FieldsOf(h)[9..] == [] && TCP_FIELDS[9..] == [];
    assert Encode([], []) + rest == rest;
  }

  // ----- the segment -----

  datatype ParsedSegment = Rejected | Accepted(result: ParseResult, seg: TcpSegment)

  /** The checksum is over the whole segment and starts from the pseudo-header's contribution. The
      result of parsing the header is not looked at; only the parser's own error is. */
  function ParseSegment(bytes: seq<byte>, pseudo: u32): ParsedSegment {
    if Value((pseudo + SumOf(bytes, false)) % TWO_32) != 0 then Rejected
    else
      var parsed := ParseHeader(Parser(bytes, NoError));
      Accepted(parsed.parser.error, TcpSegment(parsed.header, parsed.parser.buffer))
  }

  function Checksum(seg: TcpSegment, pseudo: u32): u16
    requires seg.header.doff >= 5
  {
    var sum := (pseudo + SumOf(HeaderBytes(seg.header.(cksum := 0)) + seg.payload, false)) % TWO_32;
    FoldMeaning(sum);
    Value(sum)
  }

  function WithChecksum(seg: TcpSegment, pseudo: u32): TcpSegment
    requires seg.header.doff >= 5
  {
    seg.(header := seg.header.(cksum := Checksum(seg, pseudo)))
  }

  /** `None` where the header is too short to be serialized and the original throws. */
  function SegmentBytes(seg: TcpSegment, pseudo: u32): Option<seq<byte>> {
    if seg.header.doff < 5 then None
    else Some(HeaderBytes(WithChecksum(seg, pseudo).header) + seg.payload)
  }

  /** The bytes before and after the checksum field. */
  ghost function Before(h: TcpHeader): seq<byte> {
    Encode(FieldsOf(h)[..7], TCP_FIELDS[..7])
  }

  ghost function Behind(h: TcpHeader, payload: seq<byte>): seq<byte>
    requires h.doff >= 5
  {
    Digits(h.uptr, 2) + Zeros(4 * h.doff - TCP_LENGTH) + payload
  }

  lemma AroundChecksum(h: TcpHeader, payload: seq<byte>)
    requires h.doff >= 5
    ensures HeaderBytes(h) + payload == Before(h) + Digits(h.cksum, 2) + Behind(h, payload) && |Before(h)| == 16
  {
    hide Digits, Encode, FlagByte;
    var vals, pad := FieldsOf(h), Zeros(4 * h.doff - TCP_LENGTH);
    assert vals == vals[..7] + [h.cksum, h.uptr] && TCP_FIELDS == TCP_FIELDS[..7] + [2, 2];
    EncodeAppend(vals[..7], [h.cksum, h.uptr], TCP_FIELDS[..7], [2, 2]);
    EncodeTwo(h.cksum, h.uptr);
    BeforeLength(h);
    assert HeaderBytes(h) + payload
        == Before(h) + (Digits(h.cksum, 2) + Digits(h.uptr, 2)) + pad + payload
        == Before(h) + Digits(h.cksum, 2) + (Digits(h.uptr, 2) + pad + payload);
  }

  lemma EncodeTwo(a: nat, b: nat)
    ensures Encode([a, b], [2, 2]) == Digits(a, 2) + Digits(b, 2)
  {
    hide Digits;
    assert [a, b][1..] == [b] && [2, 2][1..] == [2];
    EncodeOne(b, 2);
  }

  lemma BeforeLength(h: TcpHeader)
    ensures |Before(h)| == 16
  {
    hide Encode, Digits;
    var l := TCP_FIELDS[..7];
    EncodeLength(FieldsOf(h)[..7], l);
    assert l == [2, 2, 4, 4, 1, 1, 2];
    assert l[1..] == [2, 4, 4, 1, 1, 2] && l[1..][1..] == [4, 4, 1, 1, 2];
    TotalOfFive();
  }

  lemma TotalOfFive()
    ensures Total([4, 4, 1, 1, 2]) == 12
  {
    assert [4, 4, 1, 1, 2][1..] == [4, 1, 1, 2];
    assert [4, 1, 1, 2][1..] == [1, 1, 2];
    assert [1, 1, 2][1..] == [1, 2];
    assert [1, 2][1..] == [2] && [2][1..] == [];
    assert Total([1, 1, 2]) == 4;
  }

  /** A segment with its checksum filled in checks. */
  lemma SerializedChecks(seg: TcpSegment, pseudo: u32)
    requires seg.header.doff >= 5 && 4 * seg.header.doff + |seg.payload| <= 0xffff && pseudo < TWO_31
    ensures
      var bytes := SegmentBytes(seg, pseudo).value;
      |bytes| == 4 * seg.header.doff + |seg.payload| && Value((pseudo + SumOf(bytes, false)) % TWO_32) == 0
  {
    hide SumOf, Value, Digits, Encode, FieldsOf;
    var h0, h := seg.header.(cksum := 0), WithChecksum(seg, pseudo).header;
    SameAround(h0, h, seg.payload);
    AroundChecksum(h0, seg.payload);
    AroundChecksum(h, seg.payload);
    NoOverflow(pseudo, HeaderBytes(h0) + seg.payload);
    NoOverflow(pseudo, HeaderBytes(h) + seg.payload);
    FilledChecks(Before(h), Behind(h, seg.payload), pseudo, h.cksum);
  }

  lemma SameAround(h0: TcpHeader, h: TcpHeader, payload: seq<byte>)
    requires h0 == h.(cksum := 0) && h.doff >= 5
    ensures Before(h0) == Before(h) && Behind(h0, payload) == Behind(h, payload)
  {
    assert FieldsOf(h0)[..7] == FieldsOf(h)[..7];
  }

  /** Serializing and parsing a segment gives it back with its checksum, and reports no error, exactly
      if its header length fits in four bits. */
  lemma SegmentRoundTrip(seg: TcpSegment, pseudo: u32)
    requires SegmentBytes(seg, pseudo).Some? && 4 * seg.header.doff + |seg.payload| <= 0xffff && pseudo < TWO_31
    ensures ParseSegment(SegmentBytes(seg, pseudo).value, pseudo) == Accepted(NoError, WithChecksum(seg, pseudo))
       <==> seg.header.doff <= 15
  {
    hide SumOf, Value, HeaderBytes, ParseHeader;
    SerializedChecks(seg, pseudo);
    HeaderRoundTrip(WithChecksum(seg, pseudo).header, seg.payload);
  }

  /** If any one byte of a serialized segment is altered on the way, parsing rejects it. */
  lemma CorruptionRejected(seg: TcpSegment, pseudo: u32, bytes: seq<byte>, k: nat, b: byte)
    requires SegmentBytes(seg, pseudo) == Some(bytes) && |bytes| <= 0xffff && pseudo < TWO_31
    requires k < |bytes| && b != bytes[k]
    ensures ParseSegment(bytes[k := b], pseudo) == Rejected
  {
    hide SumOf, Value, HeaderBytes, ParseHeader;
    SerializedLength(seg, pseudo);
    SerializedChecks(seg, pseudo);
    NoOverflow(pseudo, bytes);
    NoOverflow(pseudo, bytes[k := b]);
    ByteChangeDetected(bytes, k, b, pseudo);
  }

  lemma SerializedLength(seg: TcpSegment, pseudo: u32)
    requires seg.header.doff >= 5
    ensures |SegmentBytes(seg, pseudo).value| == 4 * seg.header.doff + |seg.payload|
  {
    hide Digits, Encode, FieldsOf;
    AroundChecksum(WithChecksum(seg, pseudo).header, seg.payload);
  }

  // ----- step by step -----

  method ParseTcpHeader(p: NetParser) returns (result: ParseResult, h: TcpHeader)
    modifies p
    ensures Parsed(result, h, p.State()) == ParseHeader(old(p.State()))
  {
    hide Field, Parser.IntValue, Parser.AfterInt, HasFlag;
    ghost var start, fs := p.State(), TCP_FIELDS;
    forall k | 0 <= k < 9 ensures Field(start, fs, k) == After(start, fs, k).IntValue(fs[k]) {
      FieldIsInt(start, fs, k);
    }
    var sport := p.U16();
    assert p.State() == After(start, fs, 1);
    var dport := p.U16();
    assert p.State() == After(start, fs, 2);
    var seqno := p.U32();
    assert p.State() == After(start, fs, 3);
    var ackno := p.U32();
    assert p.State() == After(start, fs, 4);
    var off := p.U8();
    assert p.State() == After(start, fs, 5);
    var fl := p.U8();
    assert p.State() == After(start, fs, 6);
    var win := p.U16();
    assert p.State() == After(start, fs, 7);
    var cksum := p.U16();
    assert p.State() == After(start, fs, 8);
    var uptr := p.U16();
    assert p.State() == After(start, fs, 9);
    h := HeaderOf(sport, dport, seqno, ackno, off, fl, win, cksum, uptr);
    assert h == HeaderFrom(start);
    if h.doff < 5 {
      return HeaderTooShort, h;
    }
    p.RemovePrefix(h.doff * 4 - TCP_LENGTH);
    if p.error != NoError {
      return p.error, h;
    }
    result := NoError;
  }

  method SerializeTcpHeader(h: TcpHeader) returns (thrown: bool, ret: seq<byte>)
    ensures thrown <==> h.doff < 5
    ensures !thrown ==> ret == HeaderBytes(h)
  {
    hide Digits, FlagByte, Encode;
    if h.doff < 5 {
      return true, [];
    }
    thrown := false;
    ghost var vals, fs := FieldsOf(h), TCP_FIELDS;
    EncodeNone(vals[..0], fs[..0]);
    ret := PutField([], h.sport, 2, vals, fs, 0);
    ret := PutField(ret, h.dport, 2, vals, fs, 1);
    ret := PutField(ret, h.seqno, 4, vals, fs, 2);
    ret := PutField(ret, h.ackno, 4, vals, fs, 3);
    ret := PutField(ret, (h.doff * 16) % 256, 1, vals, fs, 4);
    ret := PutField(ret, FlagByte(h), 1, vals, fs, 5);
    ret := PutField(ret, h.win, 2, vals, fs, 6);
    ret := PutField(ret, h.cksum, 2, vals, fs, 7);
    ret := PutField(ret, h.uptr, 2, vals, fs, 8);
    assert vals[..9] == vals && fs[..9] == fs;
    ret := ret + Zeros(4 * h.doff - TCP_LENGTH);
  }

  method SerializeTcpSegment(seg: TcpSegment, pseudo: u32) returns (bytes: Option<seq<byte>>)
    ensures bytes == SegmentBytes(seg, pseudo)
  {
    hide HeaderBytes, SumOf;
    var check := new InternetChecksum(pseudo);
    var thrown, header := SerializeTcpHeader(seg.header.(cksum := 0));
    if thrown {
      return None;
    }
    check.Add(header);
    check.Add(seg.payload);
    HeaderLength(seg.header.(cksum := 0));
    SumAppend(header, seg.payload, false);
    AddWraps(pseudo + SumOf(header, false), SumOf(seg.payload, false));
    var cksum := check.GetValue();
    thrown, header := SerializeTcpHeader(seg.header.(cksum := cksum));
    bytes := Some(header + seg.payload);
  }

  lemma HeaderLength(h: TcpHeader)
    requires h.doff >= 5
    ensures |HeaderBytes(h)| == 4 * h.doff
  {
    hide Digits, Encode, FieldsOf;
    AroundChecksum(h, []);
  }

  method ParseTcpSegment(buffer: seq<byte>, pseudo: u32) returns (parsed: ParsedSegment)
    ensures parsed == ParseSegment(buffer, pseudo)
  {
    hide ParseHeader;
    var check := new InternetChecksum(pseudo);
    check.Add(buffer);
    var value := check.GetValue();
    if value != 0 {
      return Rejected;
    }
    var p := new NetParser(buffer);
    var _, h := ParseTcpHeader(p);
    parsed := Accepted(p.error, TcpSegment(h, p.buffer));
  }
}
