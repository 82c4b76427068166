/** 32-bit sequence numbers on the wire against 64-bit absolute ones. */
module WrappingIntegers {
  import opened Types

  /** The 32-bit number that stands for absolute number `n` when the stream starts at `isn`. */
  function Wrap(n: nat, isn: u32): u32 {
    (isn + n) % TWO_32
  }

  function Distance(a: int, b: int): nat {
    Max(a, b) - Min(a, b)
  }

  /** The upper 32 bits of a number taken modulo 2^64. */
  function Upper32(x: int): u32 {
    (x % TWO_64) / TWO_32
  }

  function Join(upper: u32, lower: u32): u64 {
    upper * TWO_32 + lower
  }

  /** The literal `1 << 31` is an `int` equal to -2^31, so adding it to an unsigned 64-bit number
      subtracts 2^31 and subtracting it adds 2^31, both modulo 2^64. */
  function Unwrap(n: u32, isn: u32, checkpoint: nat): u64 {
    var lower: u32 := (n - isn) % TWO_32;
    var result1 := Join(Upper32(checkpoint - TWO_31), lower);
    var result2 := Join(Upper32(checkpoint + TWO_31), lower);
    if Distance(result1, checkpoint) < Distance(result2, checkpoint) then result1 else result2
  }

  /** Exactly when a number survives the trip through 32 bits: no member of its residue class on
      the far side of the checkpoint is a better match, where classes end at 0 and at 2^64. */
  predicate Recoverable(v: u64, checkpoint: u64) {
    && (v - checkpoint <= TWO_31 || v < TWO_32)
    && (checkpoint - v < TWO_31 || v + TWO_32 >= TWO_64)
  }

  /** Numbers with one 32-bit image are equal or at least 2^32 apart. */
  lemma SameImageApart(a: nat, b: nat, isn: u32)
    requires Wrap(a, isn) == Wrap(b, isn)
    ensures a == b || a - b >= TWO_32 || b - a >= TWO_32
  {
    assert isn + a == (isn + a) / TWO_32 * TWO_32 + (isn + a) % TWO_32;
    assert isn + b == (isn + b) / TWO_32 * TWO_32 + (isn + b) % TWO_32;
  }

  /** The two candidate blocks of 2^32 numbers are neighbours, except where 64 bits wrap around. */
  lemma CandidateBlocks(checkpoint: u64)
    ensures
      var upper1, upper2 := Upper32(checkpoint - TWO_31), Upper32(checkpoint + TWO_31);
      if checkpoint < TWO_31 then upper1 == TWO_32 - 1 && upper2 == 0
      else if checkpoint >= TWO_64 - TWO_31 then upper1 == TWO_32 - 1 && upper2 == 0
      else upper2 == upper1 + 1 && 0 <= checkpoint - TWO_31 - upper1 * TWO_32 < TWO_32
  {
  }

  lemma UnwrapRecoverable(n: u32, isn: u32, checkpoint: u64)
    ensures Recoverable(Unwrap(n, isn, checkpoint), checkpoint)
  {
    CandidateBlocks(checkpoint);
  }

  lemma UpperBitsVanish(lower: int, upper: int, isn: u32)
    ensures (isn + (upper * TWO_32 + lower)) % TWO_32 == (isn + lower) % TWO_32
  {
  }

  lemma OffsetFromIsn(n: u32, isn: u32)
    ensures (isn + (n - isn) % TWO_32) % TWO_32 == n
  {
  }

  lemma UnwrapBlock(n: u32, isn: u32, checkpoint: u64) returns (upper: u32)
    ensures Unwrap(n, isn, checkpoint) == Join(upper, (n - isn) % TWO_32)
  {
    var upper1 := Upper32(checkpoint - TWO_31);
    upper := if Unwrap(n, isn, checkpoint) == Join(upper1, (n - isn) % TWO_32) then upper1
        else Upper32(checkpoint + TWO_31);
  }

  lemma UnwrapInClass(r: nat, upper: int, n: u32, isn: u32)
    requires r == upper * TWO_32 + (n - isn) % TWO_32
    ensures Wrap(r, isn) == n
  {
    UpperBitsVanish((n - isn) % TWO_32, upper, isn);
    OffsetFromIsn(n, isn);
  }

  /** `Unwrap` lands in the residue class it was asked for, on a recoverable number. */
  lemma UnwrapWraps(n: u32, isn: u32, checkpoint: u64)
    ensures Wrap(Unwrap(n, isn, checkpoint), isn) == n
    ensures Recoverable(Unwrap(n, isn, checkpoint), checkpoint)
  {
    UnwrapRecoverable(n, isn, checkpoint);
    var upper := UnwrapBlock(n, isn, checkpoint);
    UnwrapInClass(Unwrap(n, isn, checkpoint), upper, n, isn);
  }

  /** `Unwrap` is the nearest 64-bit member of that class, and the larger one on a tie. */
  lemma UnwrapNearest(n: u32, isn: u32, checkpoint: u64, v: u64)
    requires Wrap(v, isn) == n
    ensures
      var r := Unwrap(n, isn, checkpoint);
      && Distance(r, checkpoint) <= Distance(v, checkpoint)
      && (Distance(r, checkpoint) == Distance(v, checkpoint) ==> v <= r)
  {
    UnwrapWraps(n, isn, checkpoint);
    SameImageApart(v, Unwrap(n, isn, checkpoint), isn);
  }

  lemma UnwrapWrapRoundTrip(v: u64, isn: u32, checkpoint: u64)
    ensures Unwrap(Wrap(v, isn), isn, checkpoint) == v <==> Recoverable(v, checkpoint)
  {
    UnwrapWraps(Wrap(v, isn), isn, checkpoint);
    SameImageApart(v, Unwrap(Wrap(v, isn), isn, checkpoint), isn);
  }

  lemma UnwrapFirst(isn: u32)
    ensures Unwrap(isn, isn, 0) == 0
  {
    UnwrapWrapRoundTrip(0, isn, 0);
  }

  lemma UnwrapNear(v: u64, isn: u32, checkpoint: u64)
    requires Distance(v, checkpoint) < TWO_31
    ensures Unwrap(Wrap(v, isn), isn, checkpoint) == v
  {
    UnwrapWrapRoundTrip(v, isn, checkpoint);
  }
}
