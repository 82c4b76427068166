/** The flow-controlled byte stream: first as a value, then as the object over a chunk deque. */
module ByteStreams {
  import opened Types
  import opened Buffers

  /** `accepted` is every byte ever taken from the writer and `nread` how many of them were read.
      `plugged` says that the last non-empty write found the stream full: the object then holds an
      empty chunk after its last byte, and does not look empty once that byte is read. */
  datatype Stream = Stream(capacity: nat, accepted: seq<byte>, nread: nat, plugged: bool, ended: bool, error: bool)
  {
    predicate Valid() {
      nread <= |accepted| <= nread + capacity
    }

    function Buffered(): seq<byte>
      requires Valid()
    {
      accepted[nread..]
    }

    function BufferSize(): nat
      requires Valid()
    {
      |accepted| - nread
    }

    function RemainingCapacity(): nat
      requires Valid()
    {
      capacity - BufferSize()
    }

    predicate Eof()
      requires Valid()
    {
      ended && BufferSize() == 0 && !plugged
    }

    function Write(data: seq<byte>): (s: Stream)
      requires Valid()
      ensures s.Valid()
    {
      if data == [] then this
      else
        var n := Min(|data|, RemainingCapacity());
        this.(accepted := accepted + data[..n], plugged := n == 0)
    }

    function Read(n: nat): (s: Stream)
      requires Valid() && n <= BufferSize()
      ensures s.Valid()
    {
      this.(nread := nread + n)
    }

    function EndInput(): Stream {
      this.(ended := true)
    }

    function SetError(): Stream {
      this.(error := true)
    }
  }

  function NewStream(capacity: nat): (s: Stream)
    ensures s.Valid()
  {
    Stream(capacity, [], 0, false, false, false)
  }

  /** A write takes the bytes that fit, in order, and all of them if they fit. */
  lemma WriteExact(s: Stream, data: seq<byte>)
    requires s.Valid()
    ensures
      var s', n := s.Write(data), Min(|data|, s.nread + s.capacity - |s.accepted|);
      && s'.accepted == s.accepted + data[..n] && s'.nread == s.nread && s'.capacity == s.capacity
      && s'.ended == s.ended && s'.error == s.error && (s'.plugged <==> if data == [] then s.plugged else n == 0)
  {
  }

  /** A writer that writes `data`, ends the input and lets the reader drain the stream brings the
      reader to `eof()` if and only if its last non-empty write found room for at least a byte. */
  lemma DrainedStreamAtEof(s: Stream, data: seq<byte>)
    requires s.Valid()
    ensures
      var w := s.Write(data).EndInput();
      w.Read(w.BufferSize()).Eof() <==> (if data == [] then !s.plugged else |s.accepted| < s.nread + s.capacity)
  {
  }

  class ByteStream {
    const capacity: nat
    const buffers: BufferList
    var bytesRead: nat
    var bytesWritten: nat
    var inputEnded: bool
    var error: bool
    ghost var accepted: seq<byte>

    ghost function Repr(): set<object> {
      {this, buffers}
    }

    ghost predicate Valid()
      reads Repr()
    {
      && buffers.Valid()
      && bytesWritten == |accepted|
      && bytesRead <= bytesWritten <= bytesRead + capacity
      && buffers.Contents() == accepted[bytesRead..]
    }

    ghost function State(): (s: Stream)
      requires Valid()
      reads Repr()
      ensures s.Valid()
    {
      Stream(capacity, accepted, bytesRead, Plugged(buffers.items), inputEnded, error)
    }

    constructor (capacity: nat)
      ensures Valid() && fresh(Repr())
      ensures State() == NewStream(capacity)
    {
      this.capacity := capacity;
      buffers := new BufferList();
      bytesRead, bytesWritten, inputEnded, error, accepted := 0, 0, false, false, [];
    }

    method RemainingCapacity() returns (n: nat)
      requires Valid()
      ensures n == State().RemainingCapacity()
    {
      var size := buffers.Size();
      n := capacity - size;
    }

    method Write(data: seq<byte>) returns (written: nat)
      requires Valid()
      modifies Repr()
      ensures Valid()
      ensures State() == old(State()).Write(data)
      ensures written == |State().accepted| - |old(State()).accepted|
    {
      if data == [] {
        return 0;
      }
      var room := RemainingCapacity();
      written := if |data| > room then room else |data|;
      bytesWritten := bytesWritten + written;
      buffers.PushBack(Buffer(data[..written], 0));
      accepted := accepted + data[..written];
    }

    method PeekOutput(len: nat) returns (str: seq<byte>)
      requires Valid()
      ensures str == State().Buffered()[..Min(len, State().BufferSize())]
    {
      str := buffers.PeekOutput(len);
    }

    /** A pop of more than is held throws after discarding the chunks and before counting them. */
    method PopOutput(len: nat) returns (thrown: bool)
      requires Valid()
      modifies Repr()
      ensures thrown <==> len > old(State()).BufferSize()
      ensures !thrown ==> Valid() && State() == old(State()).Read(len)
      ensures thrown ==> buffers.items == [] && unchanged(this)
    {
      thrown := buffers.RemovePrefix(len);
      if !thrown {
        bytesRead := bytesRead + len;
      }
    }

    /** A read of more than is held throws after consuming and counting all of it. */
    method Read(len: nat) returns (thrown: bool, result: seq<byte>)
      requires Valid()
      modifies Repr()
      ensures Valid()
      ensures result == old(State()).Buffered()[..Min(len, old(State()).BufferSize())]
      ensures thrown <==> len > old(State()).BufferSize()
      ensures !thrown ==> State() == old(State()).Read(len)
      ensures thrown ==> State() == old(State()).Read(old(State()).BufferSize()).(plugged := false)
    {
      result := buffers.PeekOutput(len);
      bytesRead := bytesRead + |result|;
      thrown := buffers.RemovePrefix(len);
    }

    method EndInput()
      requires Valid()
      modifies this`inputEnded
      ensures Valid() && State() == old(State()).EndInput()
    {
      inputEnded := true;
    }

    method SetError()
      requires Valid()
      modifies this`error
      ensures Valid() && State() == old(State()).SetError()
    {
      error := true;
    }

    method BufferSize() returns (n: nat)
      requires Valid()
      ensures n == State().BufferSize()
    {
      n := buffers.Size();
    }

    /** `eof()` only looks at the chunk list, yet answers for the byte queue. */
    predicate Eof()
      requires Valid()
      reads Repr()
      ensures Eof() <==> State().Eof()
    {
      EmptyListIsEmptyQueue(buffers.items);
      inputEnded && buffers.items == []
    }
  }
}
