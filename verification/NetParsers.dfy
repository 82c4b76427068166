/** Reading and writing integers in network byte order. */
module NetParsers {
  import opened Types

  datatype ParseResult =
    | NoError | BadChecksum | PacketTooShort | WrongIPVersion | HeaderTooShort | TruncatedPacket | Unsupported

  // ----- integers as bytes -----

  function Pow256(n: nat): nat {
    if n == 0 then 1 else 256 * Pow256(n - 1)
  }

  /** The number whose digits to base 256 are `s`, most significant first. */
  function BigEndian(s: seq<byte>): nat {
    if s == [] then 0 else BigEndian(s[..|s| - 1]) * 256 + s[|s| - 1]
  }

  /** The `len` low digits of `val` to base 256, most significant first. */
  function Digits(val: nat, len: nat): (s: seq<byte>)
    ensures |s| == len
  {
    if len == 0 then [] else Digits(val / 256, len - 1) + [val % 256]
  }

  lemma {:induction false} BigEndianDigits(val: nat, len: nat)
    requires val < Pow256(len)
    ensures BigEndian(Digits(val, len)) == val
  {
    if len > 0 {
      BigEndianDigits(val / 256, len - 1);
      assert Digits(val, len)[..len - 1] == Digits(val / 256, len - 1);
    }
  }

  lemma {:induction false} BigEndianBound(s: seq<byte>)
    ensures BigEndian(s) < Pow256(|s|)
  {
    if s != [] {
      BigEndianBound(s[..|s| - 1]);
    }
  }

  lemma DivideTwice(val: nat)
    ensures val / 256 / 256 == val / 0x1_0000
  {
  }

  lemma DigitsStep(val: nat, len: nat)
    ensures Digits(val, len + 1) == Digits(val / 256, len) + [val % 256] && Digits(val, 0) == []
  {
  }

  lemma TwoDigits(val: nat)
    ensures Digits(val, 1) == [val % 256] && Digits(val, 2) == [val / 256 % 256, val % 256]
  {
    hide Digits;
    DigitsStep(val, 0);
    DigitsStep(val, 1);
    DigitsStep(val / 256, 0);
    DigitsStep(val / 256 / 256, 0);
  }

  lemma FourDigits(val: nat)
    ensures Digits(val, 4) == Digits(val / 0x1_0000, 2) + Digits(val, 2)
  {
    hide Digits;
    DigitsStep(val, 3);
    DigitsStep(val / 256, 2);
    TwoDigits(val);
    DivideTwice(val);
  }

  /** Network byte order, written out. */
  lemma DigitsInOrder(val: nat)
    ensures Digits(val, 1) == [val % 256] && Digits(val, 2) == [val / 0x100 % 256, val % 256]
    ensures Digits(val, 4)
         == [val / 0x1_0000 / 0x100 % 256, val / 0x1_0000 % 256, val / 0x100 % 256, val % 256]
  {
    hide Digits;
    FourDigits(val);
    TwoDigits(val);
    TwoDigits(val / 0x1_0000);
  }

  lemma Pow256Values()
    ensures Pow256(1) == 0x100 && Pow256(2) == 0x1_0000 && Pow256(4) == TWO_32
  {
    assert Pow256(3) == 256 * Pow256(2);
  }

  // ----- the parser -----

  /** The bytes left to parse, and the first error. */
  datatype Parser = Parser(buffer: seq<byte>, error: ParseResult)
  {
    function Checked(size: nat): Parser {
      if size > |buffer| then this.(error := PacketTooShort) else this
    }

    /** The next `len` bytes as an integer; nothing but 0 from a parser in error. */
    function IntValue(len: nat): nat {
      if Checked(len).error != NoError then 0 else BigEndian(buffer[..len])
    }

    function AfterInt(len: nat): Parser {
      RemovePrefix(len)
    }

    function RemovePrefix(n: nat): Parser {
      if Checked(n).error != NoError then Checked(n) else this.(buffer := buffer[n..])
    }
  }

  /** A parser without error in front of the digits of `val` reads `val` and moves past them. */
  lemma ParsesDigits(p: Parser, val: nat, len: nat, rest: seq<byte>)
    requires p == Parser(Digits(val, len) + rest, NoError) && val < Pow256(len)
    ensures p.IntValue(len) == val && p.AfterInt(len) == Parser(rest, NoError)
  {
    BigEndianDigits(val, len);
    assert (Digits(val, len) + rest)[..len] == Digits(val, len);
    assert (Digits(val, len) + rest)[len..] == rest;
  }

  class NetParser {
    var buffer: seq<byte>
    var error: ParseResult

    ghost function State(): Parser
      reads this
    {
      Parser(buffer, error)
    }

    constructor (buffer: seq<byte>)
      ensures State() == Parser(buffer, NoError)
    {
      this.buffer := buffer;
      error := NoError;
    }

    method CheckSize(size: nat)
      modifies this`error
      ensures State() == old(State()).Checked(size)
    {
      if size > |buffer| {
        error := PacketTooShort;
      }
    }

    method ParseInt(len: nat) returns (ret: nat)
      modifies this
      ensures ret == old(State()).IntValue(len) && State() == old(State()).AfterInt(len)
      ensures ret < Pow256(len)
    {
      CheckSize(len);
      if error != NoError {
        BigEndianBound(Digits(0, len));
        return 0;
      }
      ret := 0;
      assert buffer[..0] == [];
      for i := 0 to len
        invariant ret == BigEndian(buffer[..i])
      {
        assert buffer[..i + 1][..i] == buffer[..i];
        ret := ret * 256;
        ret := ret + buffer[i];
      }
      BigEndianBound(buffer[..len]);
      buffer := buffer[len..];
    }

    method RemovePrefix(n: nat)
      modifies this
      ensures State() == old(State()).RemovePrefix(n)
    {
      CheckSize(n);
      if error != NoError {
        return;
      }
      buffer := buffer[n..];
    }

    method U8() returns (x: byte)
      modifies this
      ensures x == old(State()).IntValue(1) && State() == old(State()).AfterInt(1)
    {
      Pow256Values();
      x := ParseInt(1);
    }

    method U16() returns (x: u16)
      modifies this
      ensures x == old(State()).IntValue(2) && State() == old(State()).AfterInt(2)
    {
      Pow256Values();
      x := ParseInt(2);
    }

    method U32() returns (x: u32)
      modifies this
      ensures x == old(State()).IntValue(4) && State() == old(State()).AfterInt(4)
    {
      Pow256Values();
      x := ParseInt(4);
    }
  }

  // ----- the unparser -----

  function DivPow(val: nat, k: nat): nat {
    if k == 0 then val else DivPow(val / 256, k - 1)
  }

  /** The `i`-th byte that the writing loop takes from `val`. */
  lemma {:induction false} DigitAt(val: nat, len: nat, i: nat)
    requires i < len
    ensures Digits(val, len)[i] == DivPow(val, len - i - 1) % 256
  {
    if i < len - 1 {
      DigitAt(val / 256, len - 1, i);
    }
  }

  /** Appends `val` in network byte order; the shift by `8 * k` bits is division by 256, k times. */
  method UnparseInt(s: seq<byte>, val: nat, len: nat) returns (r: seq<byte>)
    ensures r == s + Digits(val, len)
  {
    r := s;
    for i := 0 to len
      invariant r == s + Digits(val, len)[..i]
    {
      DigitAt(val, len, i);
      var theByte := DivPow(val, len - i - 1) % 256;
      r := r + [theByte];
    }
    assert Digits(val, len)[..len] == Digits(val, len);
  }
}
