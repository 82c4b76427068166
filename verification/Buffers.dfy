/** A deque of chunks, each a stored string with a prefix already consumed. */
module Buffers {
  import opened Types

  datatype Buffer = Buffer(storage: seq<byte>, prefix: nat)
  {
    ghost predicate Valid() {
      prefix <= |storage|
    }

    function Size(): (n: nat)
      requires Valid()
      ensures n == |Contents()|
    {
      |storage| - prefix
    }

    function Contents(): seq<byte>
      requires Valid()
    {
      storage[prefix..]
    }

    /** Clamps one byte short of the end, so it is a faithful "drop" only when `size < Size()`. */
    function RemovePrefix(size: nat): Buffer {
      if prefix + size >= |storage| then this.(prefix := (|storage| - 1) % TWO_64)
      else this.(prefix := prefix + size)
    }
  }

  /** Dropping `size` bytes with `RemovePrefix` drops exactly them if and only if a byte remains. On an
      empty chunk it leaves the prefix far outside. */
  lemma RemovePrefixExact(b: Buffer, size: nat)
    requires b.Valid() && |b.storage| < TWO_64
    ensures b.RemovePrefix(size).Valid() <==> b.storage != []
    ensures size <= b.Size() ==>
      (b.RemovePrefix(size).Valid() && b.RemovePrefix(size).Contents() == b.Contents()[size..] <==> size < b.Size())
  {
    if b.storage == [] {
      assert (0 - 1) % TWO_64 == TWO_64 - 1;
    } else {
      assert (|b.storage| - 1) % TWO_64 == |b.storage| - 1;
    }
  }

  ghost predicate AllValid(items: seq<Buffer>) {
    forall i :: 0 <= i < |items| ==> items[i].Valid()
  }

  ghost function Flatten(items: seq<Buffer>): seq<byte>
    requires AllValid(items)
  {
    if items == [] then [] else items[0].Contents() + Flatten(items[1..])
  }

  lemma {:induction false} FlattenAppend(xs: seq<Buffer>, ys: seq<Buffer>)
    requires AllValid(xs) && AllValid(ys)
    ensures AllValid(xs + ys)
    ensures Flatten(xs + ys) == Flatten(xs) + Flatten(ys)
  {
    if xs == [] {
      assert xs + ys == ys;
    } else {
      assert (xs + ys)[1..] == xs[1..] + ys;
      FlattenAppend(xs[1..], ys);
    }
  }

  lemma FlattenOne(b: Buffer)
    requires b.Valid()
    ensures Flatten([b]) == b.Contents()
  {
    assert [b][1..] == [];
    assert Flatten([b]) == b.Contents() + [];
  }

  /** A list ends in an empty chunk after a non-empty write that found no room. */
  ghost predicate Plugged(items: seq<Buffer>)
    requires AllValid(items)
  {
    items != [] && items[|items| - 1].Contents() == []
  }

  /** The chunk list is empty exactly when it holds no byte and is not plugged. */
  lemma EmptyListIsEmptyQueue(items: seq<Buffer>)
    requires AllValid(items)
    ensures items == [] <==> Flatten(items) == [] && !Plugged(items)
  {
    if items != [] {
      var n := |items| - 1;
      assert items == items[..n] + [items[n]];
      FlattenAppend(items[..n], [items[n]]);
      FlattenOne(items[n]);
    }
  }

  class BufferList {
    var items: seq<Buffer>

    ghost predicate Valid()
      reads this
    {
      AllValid(items)
    }

    ghost function Contents(): seq<byte>
      requires Valid()
      reads this
    {
      Flatten(items)
    }

    constructor ()
      ensures Valid() && items == []
    {
      items := [];
    }

    method Size() returns (result: nat)
      requires Valid()
      ensures result == |Contents()|
    {
      result := 0;
      for i := 0 to |items|
        invariant result + |Flatten(items[i..])| == |Contents()|
      {
        assert items[i..][1..] == items[i + 1..];
        result := result + items[i].Size();
      }
    }

    method PushBack(buffer: Buffer)
      requires Valid() && buffer.Valid()
      modifies this
      ensures Valid() && items == old(items) + [buffer]
      ensures Contents() == old(Contents()) + buffer.Contents()
    {
      FlattenAppend(items, [buffer]);
      FlattenOne(buffer);
      items := items + [buffer];
    }

    method PeekOutput(size: nat) returns (str: seq<byte>)
      requires Valid()
      ensures str == Contents()[..Min(size, |Contents()|)]
    {
      str := [];
      var remain := size;
      var i := 0;
      while i < |items|
        invariant 0 <= i <= |items|
        invariant Contents() == str + Flatten(items[i..])
        invariant 0 <= remain == size - |str|
      {
        assert items[i..][1..] == items[i + 1..];
        if items[i].Size() < remain {
          str := str + items[i].Contents();
          remain := remain - items[i].Size();
        } else {
          str := str + items[i].Contents()[..remain];
          return;
        }
        i := i + 1;
      }
    }

    /** Drops `size` bytes. Throws exactly when fewer are held, after discarding every chunk. */
    method RemovePrefix(size: nat) returns (thrown: bool)
      requires Valid()
      modifies this
      ensures Valid()
      ensures thrown <==> size > old(|Contents()|)
      ensures thrown ==> items == []
      ensures !thrown ==> Contents() == old(Contents())[size..]
      ensures !thrown ==> Plugged(items) == old(Plugged(items))
    {
      thrown := false;
      var left := size;
      while left > 0
        invariant Valid()
        invariant 0 <= left <= size
        invariant size - left <= old(|Contents()|)
        invariant Contents() == old(Contents())[size - left..]
        invariant Plugged(items) == old(Plugged(items)) || (items == [] && old(Plugged(items)) && left > 0)
        decreases left, |items|
      {
        if items == [] {
          return true;
        }
        if items[0].Size() <= left {
          left := left - items[0].Size();
          items := items[1..];
        } else {
          items := [items[0].RemovePrefix(left)] + items[1..];
          left := 0;
        }
      }
    }
  }
}
