/** The Internet checksum of RFC 1071: a one's complement sum of 16-bit words. */
module InternetChecksums {
  import opened Types

  /** What one byte adds: the high or the low half of a word. */
  function Weigh(b: byte, parity: bool): nat {
    if parity then b else b * 256
  }

  /** The plain sum of the words of `data`, beginning with a high byte unless `parity`. */
  function SumOf(data: seq<byte>, parity: bool): nat {
    if data == [] then 0 else Weigh(data[0], parity) + SumOf(data[1..], !parity)
  }

  function ParityAfter(parity: bool, n: nat): bool {
    if n % 2 == 0 then parity else !parity
  }

  /** Adding the carry back in until 16 bits remain. */
  function Fold(x: nat): nat {
    if x > 0xffff then Fold(x / 0x1_0000 + x % 0x1_0000) else x
  }

  function Value(sum: nat): (v: int) {
    0xffff - Fold(sum)
  }

  // ----- sums -----

  /** Adding in chunks is adding at once, wherever the data is split, odd places included. */
  lemma {:induction false} SumAppend(xs: seq<byte>, ys: seq<byte>, parity: bool)
    ensures SumOf(xs + ys, parity) == SumOf(xs, parity) + SumOf(ys, ParityAfter(parity, |xs|))
  {
    if xs == [] {
      assert xs + ys == ys;
    } else {
      assert (xs + ys)[1..] == xs[1..] + ys;
      SumAppend(xs[1..], ys, !parity);
    }
  }

  lemma SumNothing(data: seq<byte>, parity: bool)
    requires data == []
    ensures SumOf(data, parity) == 0
  {
  }

  lemma SumNext(data: seq<byte>, i: nat, parity: bool)
    requires i < |data|
    ensures SumOf(data[..i + 1], parity) == SumOf(data[..i], parity) + Weigh(data[i], ParityAfter(parity, i))
  {
    assert data[..i + 1] == data[..i] + [data[i]];
    SumAppend(data[..i], [data[i]], parity);
    assert [data[i]][1..] == [];
  }

  lemma {:induction false} SumBound(data: seq<byte>, parity: bool)
    ensures SumOf(data, parity) <= 32768 * |data| + if parity then 0 else 32512
  {
    if data != [] {
      SumBound(data[1..], !parity);
    }
  }

  /** The 32-bit accumulator cannot overflow on anything that fits in an IP datagram. */
  lemma NoOverflow(initial: nat, data: seq<byte>)
    requires initial < TWO_31 && |data| <= 0xffff
    ensures initial + SumOf(data, false) < TWO_32
  {
    SumBound(data, false);
  }

  lemma {:induction false} SumUpdate(data: seq<byte>, k: nat, b: byte, parity: bool)
    requires k < |data|
    ensures SumOf(data[k := b], parity)
         == SumOf(data, parity) - Weigh(data[k], ParityAfter(parity, k)) + Weigh(b, ParityAfter(parity, k))
  {
    if k == 0 {
      assert data[0 := b][1..] == data[1..];
    } else {
      assert data[k := b][1..] == data[1..][k - 1 := b];
      SumUpdate(data[1..], k - 1, b, !parity);
    }
  }

  // ----- folding -----

  lemma FoldStep(x: nat)
    ensures (x / 0x1_0000 + x % 0x1_0000) % 0xffff == x % 0xffff
  {
    var q, r := x / 0x1_0000, x % 0x1_0000;
    assert x == (q + r) + q * 0xffff;
  }

  /** Folding keeps the residue modulo 65535 and turns nothing but zero into zero. */
  lemma {:induction false} FoldMeaning(x: nat)
    ensures 0 <= Fold(x) <= 0xffff && Fold(x) % 0xffff == x % 0xffff && (Fold(x) == 0 <==> x == 0)
    decreases x
  {
    if x > 0xffff {
      FoldStep(x);
      FoldMeaning(x / 0x1_0000 + x % 0x1_0000);
    }
  }

  /** A sum checks exactly when it is a positive multiple of 65535. */
  lemma ValueZero(sum: nat)
    ensures Value(sum) == 0 <==> sum > 0 && sum % 0xffff == 0
  {
    FoldMeaning(sum);
  }

  /** Putting the value of a sum into it makes the sum check. */
  lemma ValueCompletes(sum: nat)
    ensures 0 <= Value(sum) <= 0xffff && Value(sum + Value(sum)) == 0
  {
    FoldMeaning(sum);
    ValueZero(sum + Value(sum));
    Cancels(sum, Fold(sum));
  }

  lemma Cancels(x: nat, f: nat)
    requires f <= 0xffff && f % 0xffff == x % 0xffff
    ensures (x + (0xffff - f)) % 0xffff == 0
  {
    var q := x / 0xffff;
    var r := x % 0xffff;
    assert x == q * 0xffff + r;
    assert f == r || (f == 0xffff && r == 0);
    assert x + (0xffff - f) == (if f == r then q + 1 else q) * 0xffff;
  }

  // ----- the object -----

  class InternetChecksum {
    var sum: u32
    var parity: bool

    constructor (initial: u32)
      ensures sum == initial && !parity
    {
      sum := initial;
      parity := false;
    }

    method Add(data: seq<byte>)
      modifies this
      ensures sum == (old(sum) + SumOf(data, old(parity))) % TWO_32
      ensures parity == ParityAfter(old(parity), |data|)
    {
      hide SumOf;
      SumNothing(data[..0], parity);
      for i := 0 to |data|
        invariant sum == (old(sum) + SumOf(data[..i], old(parity))) % TWO_32
        invariant parity == ParityAfter(old(parity), i)
      {
        var val: int := data[i];
        if !parity {
          val := val * 256;
        }
        SumNext(data, i, old(parity));
        AddWraps(old(sum) + SumOf(data[..i], old(parity)), val);
        sum := (sum + val) % TWO_32;
        parity := !parity;
      }
      assert data[..|data|] == data;
    }

    method GetValue() returns (v: u16)
      ensures v == Value(sum)
    {
      var ret: nat := sum;
      while ret > 0xffff
        invariant Fold(ret) == Fold(sum)
        decreases ret
      {
        ret := ret / 0x1_0000 + ret % 0x1_0000;
      }
      FoldMeaning(ret);
      v := 0xffff - ret;
    }
  }

  lemma AddWraps(x: nat, y: nat)
    ensures (x % TWO_32 + y) % TWO_32 == (x + y) % TWO_32
  {
  }

  /** The checksum of `data` in one go. */
  method ChecksumOf(initial: u32, data: seq<byte>) returns (v: u16)
    ensures v == Value((initial + SumOf(data, false)) % TWO_32)
  {
    hide SumOf, Value;
    var check := new InternetChecksum(initial);
    check.Add(data);
    v := check.GetValue();
  }
}
