/** The receiving half of an endpoint. */
module TcpReceivers {
  import opened Types
  import opened WrappingIntegers
  import opened ByteStreams
  import opened BufferStrings
  import opened StreamReassemblers
  import opened TcpSegments

  datatype Receiver = Receiver(reassembler: Reassembler, isn: Option<u32>, fsn: Option<u32>)
  {
    ghost predicate Sound() {
      reassembler.output.Valid() && reassembler.output.capacity == reassembler.capacity
    }

    ghost predicate Valid() {
      reassembler.Valid()
    }

    function Output(): Stream {
      reassembler.output
    }

    /** A segment with SYN and no data moves `top` to just past the SYN, wherever it was. */
    function PushIndexed(seg: TcpSegment, index: nat): Reassembler
      requires Valid()
    {
      var r := reassembler.PushSubstring(seg.payload, index, seg.header.fin);
      if seg.header.syn && seg.payload == [] then r.(top := index + 1) else r
    }

    function PushWrapped(seg: TcpSegment, first: u32): Reassembler
      requires Valid()
    {
      PushIndexed(seg, Unwrap(seg.header.seqno, first, reassembler.top))
    }

    function FirstNumber(seg: TcpSegment): u32 {
      if isn.Some? then isn.value else seg.header.seqno
    }

    function FinNumber(seg: TcpSegment): Option<u32> {
      if seg.header.fin && fsn.None? then Some(seg.header.seqno) else fsn
    }

    function SegmentReceived(seg: TcpSegment): Receiver
      requires Valid()
    {
      if isn.None? && !seg.header.syn then this
      else Receiver(PushWrapped(seg, FirstNumber(seg)), Some(FirstNumber(seg)), FinNumber(seg))
    }

    function Read(n: nat): Receiver
      requires Valid() && n <= Output().BufferSize()
    {
      this.(reassembler := reassembler.Read(n))
    }

    function SetError(): Receiver {
      this.(reassembler := reassembler.(output := reassembler.output.SetError()))
    }

    function Ackno(): Option<u32> {
      if isn.None? then None
      else
        var a := (Wrap(|Output().accepted|, isn.value) + 1) % TWO_32;
        Some(if Output().ended then (a + 1) % TWO_32 else a)
    }

    function WindowSize(): nat
      requires Sound()
    {
      reassembler.CurrentCapacity()
    }

    /** The window as it is written into a segment. */
    function AdvertisedWindow(): u16
      requires Sound()
    {
      Min(0xffff, WindowSize())
    }

    /** The absolute number of the first position not yet received: SYN, bytes, then FIN. */
    ghost function AckAbsolute(): nat {
      if isn.None? then 0 else |Output().accepted| + 1 + if Output().ended then 1 else 0
    }
  }

  function NewReceiver(capacity: nat): (r: Receiver)
    ensures r.Valid()
  {
    Receiver(NewReassembler(capacity), None, None)
  }

  /** The acknowledgment number on the wire is the absolute one, wrapped. */
  lemma AcknoWraps(r: Receiver)
    requires r.isn.Some?
    ensures r.Ackno() == Some(Wrap(r.AckAbsolute(), r.isn.value))
  {
  }

  /** The window is what the capacity leaves of the bytes received and not read; in a segment it is cut to
      65535. With the acknowledgment number it makes the right edge: bytes read, capacity, SYN and FIN. */
  lemma WindowExact(r: Receiver)
    requires r.Sound()
    ensures
      var o := r.Output();
      && |o.accepted| + r.WindowSize() == o.nread + o.capacity
      && r.AdvertisedWindow() == (if o.nread + o.capacity - |o.accepted| <= 65535 then r.WindowSize() else 65535)
      && (r.isn.Some? ==> r.AckAbsolute() + r.WindowSize() == o.nread + o.capacity + (if o.ended then 2 else 1))
  {
  }

  /** What a segment numbered `a`, near enough to be told apart, does to a receiver that knows the first
      number: its data, with its end, goes to the reassembler at index `a`; a SYN without data then sets the
      next index to `a + 1`. */
  lemma ReceiveExactly(r: Receiver, seg: TcpSegment, a: u64)
    requires r.Valid() && r.isn.Some? && r.reassembler.top < TWO_64
    requires seg.header.seqno == Wrap(a, r.isn.value) && Distance(a, r.reassembler.top) < TWO_31
    ensures
      var r', pushed := r.SegmentReceived(seg), r.reassembler.PushSubstring(seg.payload, a, seg.header.fin);
      && r'.isn == r.isn
      && r'.reassembler == if seg.header.syn && seg.payload == [] then pushed.(top := a + 1) else pushed
  {
    hide Unwrap, Wrap, Reassembler.PushSubstring;
    UnwrapNear(a, r.isn.value, r.reassembler.top);
  }

  /** Which segments set the two numbers that a receiver keeps: the first SYN, and the first FIN from it on. */
  lemma ReceiveNumbers(r: Receiver, seg: TcpSegment)
    requires r.Valid()
    ensures
      var r' := r.SegmentReceived(seg);
      && (r'.isn.Some? <==> r.isn.Some? || seg.header.syn)
      && (r'.fsn.Some? <==> r.fsn.Some? || (seg.header.fin && (r.isn.Some? || seg.header.syn)))
  {
    hide Unwrap, Reassembler.PushSubstring;
  }

  // ----- the window never shrinks -----

  datatype Event = Arrive(seg: TcpSegment) | Take(n: nat)

  ghost predicate Happens(r: Receiver, e: Event, r': Receiver) {
    && r.Valid()
    && match e
       case Arrive(seg) => r' == r.SegmentReceived(seg)
       case Take(n) => n <= r.Output().BufferSize() && r' == r.Read(n)
  }

  ghost predicate StepAt(events: seq<Event>, states: seq<Receiver>, i: nat)
    requires |states| == |events| + 1 && i < |events|
  {
    Happens(states[i], events[i], states[i + 1])
  }

  ghost predicate IsRun(capacity: nat, events: seq<Event>, states: seq<Receiver>) {
    && |states| == |events| + 1 && states[0] == NewReceiver(capacity)
    && forall i :: 0 <= i < |events| ==> StepAt(events, states, i)
  }

  /** What any segment, genuine or not, can do to the output. */
  lemma ReceiveContinues(r: Receiver, seg: TcpSegment)
    requires r.Valid()
    ensures
      var r' := r.SegmentReceived(seg);
      Continues(r.Output(), r'.Output()) && r'.reassembler.capacity == r.reassembler.capacity
          && (r.isn.Some? ==> r'.isn == r.isn)
  {
    hide Unwrap, Reassembler.PushSubstring;
    PushContinues(r.reassembler, seg.payload, Unwrap(seg.header.seqno, r.FirstNumber(seg), r.reassembler.top),
        seg.header.fin);
  }

  /** Neither the absolute acknowledgment number nor the right edge of the window, exact or as
      advertised, lies further back in `r'` than in `r`. */
  ghost predicate NotBehind(r': Receiver, r: Receiver) {
    && r.Valid() && r'.Valid() && r'.isn == r.isn
    && r.AckAbsolute() <= r'.AckAbsolute()
    && r.AckAbsolute() + r.WindowSize() <= r'.AckAbsolute() + r'.WindowSize()
    && r.AckAbsolute() + r.AdvertisedWindow() <= r'.AckAbsolute() + r'.AdvertisedWindow()
  }

  lemma EventNeverShrinks(r: Receiver, e: Event, r': Receiver)
    requires Happens(r, e, r') && r'.Valid() && r.isn.Some?
    ensures NotBehind(r', r)
  {
    hide Receiver.SegmentReceived;
    if e.Arrive? {
      ReceiveContinues(r, e.seg);
    }
  }

  lemma NotBehindTransitive(a: Receiver, b: Receiver, c: Receiver)
    requires NotBehind(c, b) && NotBehind(b, a)
    ensures NotBehind(c, a)
  {
  }

  /** Over any run of arriving segments, genuine or not, and reads, from the first SYN on: neither the
      acknowledgment number nor the right edge of the window ever moves back. */
  lemma {:induction false} WindowNeverShrinks(capacity: nat, events: seq<Event>, states: seq<Receiver>, i: nat, j: nat)
    requires IsRun(capacity, events, states) && i <= j < |states|
    requires states[j].Valid() && states[i].isn.Some?
    ensures NotBehind(states[j], states[i])
    decreases j - i
  {
    if i < j {
      assert StepAt(events, states, j - 1);
      WindowNeverShrinks(capacity, events, states, i, j - 1);
      EventNeverShrinks(states[j - 1], events[j - 1], states[j]);
      NotBehindTransitive(states[i], states[j - 1], states[j]);
    }
  }

  /** Bytes read so far. */
  function Taken(events: seq<Event>, i: nat): nat
    requires i <= |events|
  {
    if i == 0 then 0 else Taken(events, i - 1) + if events[i - 1].Take? then events[i - 1].n else 0
  }

  /** Over any run the right edge of the window is capacity and bytes read, and one each for SYN and FIN: it
      moves by exactly what is read, and by one at the end of the stream. */
  lemma {:induction false} WindowEdge(capacity: nat, events: seq<Event>, states: seq<Receiver>, i: nat)
    requires IsRun(capacity, events, states) && i < |states|
    ensures
      var r := states[i];
      && r.Sound() && r.Output().nread == Taken(events, i) && r.Output().capacity == capacity
      && (r.isn.Some? ==>
            r.AckAbsolute() + r.WindowSize() == Taken(events, i) + capacity + (if r.Output().ended then 2 else 1))
  {
    hide Receiver.SegmentReceived, Receiver.WindowSize, Receiver.AckAbsolute;
    if i > 0 {
      WindowEdge(capacity, events, states, i - 1);
      assert StepAt(events, states, i - 1);
      if events[i - 1].Arrive? {
        ReceiveContinues(states[i - 1], events[i - 1].seg);
      }
    }
    WindowExact(states[i]);
  }

  // ----- the list stays sorted -----

  /** Nothing has been received. */
  ghost predicate Blank(r: Reassembler) {
    r.Valid() && r.top == 0 && r.list == [] && r.output.accepted == [] && !r.output.ended
  }

  lemma PushAtBlank(r: Reassembler, eof: bool)
    requires Blank(r)
    ensures
      var r' := r.PushSubstring([], 0, eof);
      && r'.Valid() && r'.top == 0 && r'.list == [] && r'.capacity == r.capacity
      && r'.output == if eof && r.capacity > 0 then r.output.EndInput() else r.output
  {
    var b := Piece(0, [], eof);
    assert Push([], b) == [b];
  }

  /** A SYN without data after the first segment moves `top` whatever has been received. */
  predicate MovesTop(r: Receiver, seg: TcpSegment) {
    r.isn.Some? && seg.header.syn && seg.payload == []
  }

  /** The list is sorted and lies where the window allows; nothing is taken in before the first SYN. */
  ghost predicate Orderly(r: Receiver) {
    r.Valid() && r.reassembler.Placed() && (r.isn.None? ==> Blank(r.reassembler))
  }

  lemma ReceiveOrderly(r: Receiver, seg: TcpSegment)
    requires Orderly(r) && !MovesTop(r, seg)
    ensures Orderly(r.SegmentReceived(seg))
  {
    hide Unwrap, Reassembler.PushSubstring;
    var index := Unwrap(seg.header.seqno, r.FirstNumber(seg), r.reassembler.top);
    PushKeeps(r.reassembler, seg.payload, index, seg.header.fin);
    if r.isn.None? && seg.header.syn {
      UnwrapFirst(seg.header.seqno);
      PushAtBlank(r.reassembler, seg.header.fin);
    }
  }

  lemma ReadOrderly(r: Receiver, n: nat)
    requires Orderly(r) && n <= r.Output().BufferSize()
    ensures Orderly(r.Read(n))
  {
    ReadKeeps(r.reassembler, n);
  }

  /** As long as no SYN without data is repeated, any segments, genuine or not, leave the list sorted,
      so that the binary searches of the next step are in order. */
  lemma {:induction false} OrderlyRun(capacity: nat, events: seq<Event>, states: seq<Receiver>, i: nat)
    requires IsRun(capacity, events, states) && i < |states|
    requires forall k :: 0 <= k < i && events[k].Arrive? ==> !MovesTop(states[k], events[k].seg)
    ensures Orderly(states[i])
  {
    hide Orderly, MovesTop, Receiver.SegmentReceived, Receiver.Read;
    if i == 0 {
      NewOrderly(capacity);
    } else {
      OrderlyRun(capacity, events, states, i - 1);
      assert StepAt(events, states, i - 1);
      match events[i - 1]
      case Arrive(seg) => ReceiveOrderly(states[i - 1], seg);
      case Take(n) => ReadOrderly(states[i - 1], n);
    }
  }

  lemma NewOrderly(capacity: nat)
    ensures Orderly(NewReceiver(capacity))
  {
  }

  // ----- the object -----

  class TcpReceiver {
    const reassembler: StreamReassembler
    var isn: Option<u32>
    var fsn: Option<u32>

    ghost function Repr(): set<object> {
      {this} + reassembler.Repr()
    }

    ghost predicate Valid()
      reads Repr()
    {
      reassembler.Valid()
    }

    ghost function State(): Receiver
      requires Valid()
      reads Repr()
    {
      Receiver(reassembler.State(), isn, fsn)
    }

    constructor (capacity: nat)
      ensures Valid() && fresh(Repr()) && State() == NewReceiver(capacity)
    {
      reassembler := new StreamReassembler(capacity);
      isn, fsn := None, None;
    }

    method PushBackWrapString(seg: TcpSegment, first: u32, eof: bool)
      requires Valid() && State().Valid()
      modifies reassembler.Repr()
      ensures Valid() && State().reassembler == old(State()).PushWrapped(seg.(header := seg.header.(fin := eof)), first)
    {
      var index: nat := Unwrap(seg.header.seqno, first, reassembler.topPointer);
      if seg.header.syn && |seg.payload| == 0 {
        reassembler.PushSubstring(seg.payload, index, eof);
        reassembler.topPointer := index + 1;
      } else {
        reassembler.PushSubstring(seg.payload, index, eof);
      }
    }

    method SegmentReceived(seg: TcpSegment)
      requires Valid() && State().Valid()
      modifies Repr()
      ensures Valid() && State() == old(State()).SegmentReceived(seg)
    {
      hide Unwrap, Reassembler.PushSubstring;
      assert seg.(header := seg.header.(fin := seg.header.fin)) == seg;
      if isn.None? && !seg.header.syn {
        return;
      }
      if seg.header.syn && isn.None? {
        isn := Some(seg.header.seqno);
      }
      if seg.header.fin && fsn.None? {
        fsn := Some(seg.header.seqno);
      }
      if isn.Some? && fsn.None? {
        PushBackWrapString(seg, isn.value, false);
      } else if isn.Some? && seg.header.fin {
        PushBackWrapString(seg, isn.value, true);
      } else if isn.Some? && fsn.Some? {
        PushBackWrapString(seg, isn.value, false);
      }
    }

    method Ackno() returns (result: Option<u32>)
      requires Valid()
      ensures result == State().Ackno()
    {
      result := None;
      if isn.Some? {
        result := Some((Wrap(reassembler.output.bytesWritten, isn.value) + 1) % TWO_32);
        if reassembler.output.inputEnded {
          result := Some((result.value + 1) % TWO_32);
        }
      }
    }

    method WindowSize() returns (n: nat)
      requires Valid()
      ensures n == State().WindowSize()
    {
      n := reassembler.CurrentCapacity();
    }
  }
}
