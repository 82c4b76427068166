/** Headers as rows of fixed-width integer fields. */
module HeaderFields {
  import opened Types
  import opened NetParsers
  import opened InternetChecksums

  /** The fields `vals`, field k in `lens[k]` bytes. */
  function Encode(vals: seq<nat>, lens: seq<nat>): (s: seq<byte>)
    requires |vals| == |lens|
  {
    if vals == [] then [] else Digits(vals[0], lens[0]) + Encode(vals[1..], lens[1..])
  }

  ghost predicate Fit(vals: seq<nat>, lens: seq<nat>) {
    |vals| == |lens| && forall k :: 0 <= k < |vals| ==> vals[k] < Pow256(lens[k])
  }

  function Zeros(n: nat): (s: seq<byte>)
    ensures |s| == n
  {
    seq(n, _ => 0)
  }

  function Total(lens: seq<nat>): nat {
    if lens == [] then 0 else lens[0] + Total(lens[1..])
  }

  lemma {:induction false} EncodeLength(vals: seq<nat>, lens: seq<nat>)
    requires |vals| == |lens|
    ensures |Encode(vals, lens)| == Total(lens)
  {
    if vals != [] {
      EncodeLength(vals[1..], lens[1..]);
    }
  }

  lemma {:induction false} EncodeAppend(xs: seq<nat>, ys: seq<nat>, ls: seq<nat>, ms: seq<nat>)
    requires |xs| == |ls| && |ys| == |ms|
    ensures Encode(xs + ys, ls + ms) == Encode(xs, ls) + Encode(ys, ms)
  {
    if xs == [] {
      assert xs + ys == ys && ls + ms == ms;
    } else {
      assert (xs + ys)[1..] == xs[1..] + ys && (ls + ms)[1..] == ls[1..] + ms;
      EncodeAppend(xs[1..], ys, ls[1..], ms);
    }
  }

  /** One more field at the end. */
  lemma EncodeNext(vals: seq<nat>, lens: seq<nat>, k: nat)
    requires |vals| == |lens| && k < |vals|
    ensures Encode(vals[..k + 1], lens[..k + 1]) == Encode(vals[..k], lens[..k]) + Digits(vals[k], lens[k])
  {
    assert vals[..k + 1] == vals[..k] + [vals[k]] && lens[..k + 1] == lens[..k] + [lens[k]];
    EncodeAppend(vals[..k], [vals[k]], lens[..k], [lens[k]]);
    EncodeOne(vals[k], lens[k]);
  }

  lemma EncodeNone(vals: seq<nat>, lens: seq<nat>)
    requires vals == [] && lens == []
    ensures Encode(vals, lens) == []
  {
  }

  lemma EncodeOne(val: nat, len: nat)
    ensures Encode([val], [len]) == Digits(val, len)
  {
    assert [val][1..] == [] && [len][1..] == [];
  }

  /** Appends field `k`. */
  method PutField(ret: seq<byte>, val: nat, len: nat, ghost vals: seq<nat>, ghost lens: seq<nat>, ghost k: nat)
    returns (r: seq<byte>)
    requires |vals| == |lens| && k < |vals| && val == vals[k] && len == lens[k]
    requires ret == Encode(vals[..k], lens[..k])
    ensures r == Encode(vals[..k + 1], lens[..k + 1])
  {
    hide Encode, Digits;
    EncodeNext(vals, lens, k);
    r := UnparseInt(ret, val, len);
  }

  // ----- reading a row of fields -----

  /** The parser after `k` fields. */
  function After(p: Parser, lens: seq<nat>, k: nat): Parser
    requires k <= |lens|
  {
    if k == 0 then p else After(p, lens, k - 1).AfterInt(lens[k - 1])
  }

  /** Field `k`. */
  function Field(p: Parser, lens: seq<nat>, k: nat): (v: nat)
    requires k < |lens|
    ensures v < Pow256(lens[k])
  {
    var q := After(p, lens, k);
    if q.Checked(lens[k]).error == NoError then BigEndianBound(q.buffer[..lens[k]]); q.IntValue(lens[k])
    else BigEndianBound(Digits(0, lens[k])); 0
  }

  function Field8(p: Parser, lens: seq<nat>, k: nat): byte
    requires k < |lens| && lens[k] == 1
  {
    Pow256Values();
    Field(p, lens, k)
  }

  function Field16(p: Parser, lens: seq<nat>, k: nat): u16
    requires k < |lens| && lens[k] == 2
  {
    Pow256Values();
    Field(p, lens, k)
  }

  function Field32(p: Parser, lens: seq<nat>, k: nat): u32
    requires k < |lens| && lens[k] == 4
  {
    Pow256Values();
    Field(p, lens, k)
  }

  lemma FieldIsInt(p: Parser, lens: seq<nat>, k: nat)
    requires k < |lens|
    ensures Field(p, lens, k) == After(p, lens, k).IntValue(lens[k])
  {
  }

  lemma EncodeFrom(vals: seq<nat>, lens: seq<nat>, k: nat)
    requires |vals| == |lens| && k < |vals|
    ensures Encode(vals[k..], lens[k..]) == Digits(vals[k], lens[k]) + Encode(vals[k + 1..], lens[k + 1..])
  {
    assert vals[k..][1..] == vals[k + 1..] && lens[k..][1..] == lens[k + 1..];
  }

  /** Field `k` and what follows it, where the fields from `k` on are next. */
  lemma NextField(vals: seq<nat>, lens: seq<nat>, rest: seq<byte>, k: nat, p: Parser)
    requires Fit(vals, lens) && k < |vals| && p == Parser(Encode(vals[k..], lens[k..]) + rest, NoError)
    ensures p.IntValue(lens[k]) == vals[k]
    ensures p.AfterInt(lens[k]) == Parser(Encode(vals[k + 1..], lens[k + 1..]) + rest, NoError)
  {
    hide Encode, Digits, Pow256, Parser.IntValue, Parser.AfterInt;
    EncodeFrom(vals, lens, k);
    var more := Encode(vals[k + 1..], lens[k + 1..]) + rest;
    assert Encode(vals[k..], lens[k..]) + rest == Digits(vals[k], lens[k]) + more;
    ParsesDigits(p, vals[k], lens[k], more);
  }

  lemma {:induction false} AfterEncoded(vals: seq<nat>, lens: seq<nat>, rest: seq<byte>, k: nat)
    requires Fit(vals, lens) && k <= |vals|
    ensures After(Parser(Encode(vals, lens) + rest, NoError), lens, k)
      == Parser(Encode(vals[k..], lens[k..]) + rest, NoError)
  {
    hide Encode, Parser.AfterInt, Parser.IntValue;
    if k == 0 {
      assert vals[0..] == vals && lens[0..] == lens;
    } else {
      AfterEncoded(vals, lens, rest, k - 1);
      NextField(vals, lens, rest, k - 1, Parser(Encode(vals[k - 1..], lens[k - 1..]) + rest, NoError));
    }
  }

  /** What was written is read back, field by field. */
  lemma FieldsReadBack(vals: seq<nat>, lens: seq<nat>, rest: seq<byte>, k: nat)
    requires Fit(vals, lens) && k < |vals|
    ensures Field(Parser(Encode(vals, lens) + rest, NoError), lens, k) == vals[k]
  {
    hide Encode, Parser.AfterInt, Parser.IntValue, After, Field;
    AfterEncoded(vals, lens, rest, k);
    FieldIsInt(Parser(Encode(vals, lens) + rest, NoError), lens, k);
    NextField(vals, lens, rest, k, Parser(Encode(vals[k..], lens[k..]) + rest, NoError));
  }

  // ----- where a field lies -----

  /** The number of bytes before field `k`. */
  function Offset(lens: seq<nat>, k: nat): nat
    requires k <= |lens|
  {
    if k == 0 then 0 else Offset(lens, k - 1) + lens[k - 1]
  }

  lemma {:induction false} PrefixLength(vals: seq<nat>, lens: seq<nat>, k: nat)
    requires |vals| == |lens| && k <= |vals|
    ensures |Encode(vals[..k], lens[..k])| == Offset(lens, k)
  {
    hide Encode, Digits;
    if k == 0 {
      EncodeNone(vals[..0], lens[..0]);
    } else {
      PrefixLength(vals, lens, k - 1);
      EncodeNext(vals, lens, k - 1);
    }
  }

  /** Field `k` is at its offset, in as many bytes as it is wide. */
  lemma FieldPlaced(vals: seq<nat>, lens: seq<nat>, k: nat, rest: seq<byte>)
    requires |vals| == |lens| && k < |vals|
    ensures
      var s := Encode(vals, lens) + rest;
      Offset(lens, k + 1) <= |s| && s[Offset(lens, k)..Offset(lens, k + 1)] == Digits(vals[k], lens[k])
  {
    hide Encode, Digits;
    PrefixLength(vals, lens, k);
    EncodeNext(vals, lens, k);
    assert vals == vals[..k + 1] + vals[k + 1..] && lens == lens[..k + 1] + lens[k + 1..];
    EncodeAppend(vals[..k + 1], vals[k + 1..], lens[..k + 1], lens[k + 1..]);
  }

  /** Reading any bytes, long enough or not. */
  lemma {:induction false} AfterFields(bytes: seq<byte>, lens: seq<nat>, k: nat)
    requires k <= |lens|
    ensures
      var p := After(Parser(bytes, NoError), lens, k);
      if Offset(lens, k) <= |bytes| then p == Parser(bytes[Offset(lens, k)..], NoError) else p.error == PacketTooShort
  {
    if k > 0 {
      AfterFields(bytes, lens, k - 1);
      if Offset(lens, k) <= |bytes| {
        assert bytes[Offset(lens, k - 1)..][lens[k - 1]..] == bytes[Offset(lens, k)..];
      }
    }
  }

  /** Field `k` of any bytes that reach so far. */
  lemma FieldRead(bytes: seq<byte>, lens: seq<nat>, k: nat)
    requires k < |lens| && Offset(lens, k + 1) <= |bytes|
    ensures Field(Parser(bytes, NoError), lens, k) == BigEndian(bytes[Offset(lens, k)..Offset(lens, k + 1)])
  {
    hide BigEndian;
    AfterFields(bytes, lens, k);
    FieldIsInt(Parser(bytes, NoError), lens, k);
    assert bytes[Offset(lens, k)..][..lens[k]] == bytes[Offset(lens, k)..Offset(lens, k + 1)];
  }

  lemma BigEndianOne(b: byte)
    ensures BigEndian([b]) == b
  {
  }

  lemma ByteFieldRead(bytes: seq<byte>, lens: seq<nat>, k: nat)
    requires k < |lens| && lens[k] == 1 && Offset(lens, k + 1) <= |bytes|
    ensures Field(Parser(bytes, NoError), lens, k) == bytes[Offset(lens, k)]
  {
    hide BigEndian, Field;
    FieldRead(bytes, lens, k);
    var o := Offset(lens, k);
    assert bytes[o..o + 1] == [bytes[o]];
    BigEndianOne(bytes[o]);
  }

  // ----- a checksum field -----

  lemma SumOfWord(c: u16)
    ensures SumOf(Digits(c, 2), false) == c
  {
    var d := Digits(c, 2);
    assert Digits(c / 256, 1) == Digits(c / 256 / 256, 0) + [(c / 256) % 256];
    assert d == [c / 256, c % 256];
    assert d[1..] == [c % 256];
    assert [c % 256][1..] == [];
    assert SumOf(d[1..], true) == c % 256;
  }

  /** A 16-bit field at an even offset adds its value to the sum. */
  lemma SumWithWord(before: seq<byte>, c: u16, after: seq<byte>)
    requires |before| % 2 == 0
    ensures SumOf(before + Digits(c, 2) + after, false) == SumOf(before + Digits(0, 2) + after, false) + c
  {
    forall x: u16
      ensures SumOf(before + Digits(x, 2) + after, false) == SumOf(before, false) + x + SumOf(after, false)
    {
      SumAppend(before + Digits(x, 2), after, false);
      SumAppend(before, Digits(x, 2), false);
      SumOfWord(x);
    }
    assert SumOf(before + Digits(0, 2) + after, false) == SumOf(before, false) + 0 + SumOf(after, false);
  }

  /** Filling the zeroed field with the value of the sum makes the whole check. */
  lemma FilledChecks(before: seq<byte>, after: seq<byte>, initial: nat, c: u16)
    requires |before| % 2 == 0 && c == Value(initial + SumOf(before + Digits(0, 2) + after, false))
    ensures Value(initial + SumOf(before + Digits(c, 2) + after, false)) == 0
  {
    SumWithWord(before, c, after);
    ValueCompletes(initial + SumOf(before + Digits(0, 2) + after, false));
  }

  /** Any change of a single byte is noticed. */
  lemma ByteChangeDetected(data: seq<byte>, k: nat, b: byte, initial: nat)
    requires k < |data| && b != data[k] && Value(initial + SumOf(data, false)) == 0
    ensures Value(initial + SumOf(data[k := b], false)) != 0
  {
    hide SumOf, Value;
    SumUpdate(data, k, b, false);
    ValueZero(initial + SumOf(data, false));
    ValueZero(initial + SumOf(data[k := b], false));
    NotAMultiple(initial + SumOf(data, false), initial + SumOf(data[k := b], false));
  }

  lemma NotAMultiple(x: nat, y: nat)
    requires x % 0xffff == 0 && x != y && -0xffff < y - x < 0xffff
    ensures y % 0xffff != 0
  {
    assert x == x / 0xffff * 0xffff;
    assert y == y / 0xffff * 0xffff + y % 0xffff;
  }
}
