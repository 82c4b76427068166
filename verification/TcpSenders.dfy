/** The sending half of an endpoint: segmentation, the in-flight queue and the retransmission timer. */
module TcpSenders {
  import opened Types
  import opened WrappingIntegers
  import opened ByteStreams
  import opened TcpSegments

  const MAX_PAYLOAD_SIZE: nat := 1000

  /** A segment in flight with its timeout and the time it was last sent. */
  datatype Outstanding = Outstanding(seg: TcpSegment, rto: nat, time: nat)

  datatype Sender = Sender(
    isn: u32, initialRto: nat, stream: Stream,
    synAcked: bool, finAcked: bool, lastTick: nat, retransmissions: nat,
    window: nat, windowZero: bool, inFlight: int,
    queue: seq<Outstanding>, next: nat, out: seq<TcpSegment>)
  {
    function Remaining(): nat {
      if window > inFlight then window - inFlight else 0
    }

    /** The exception of `fill_window`: no SYN acknowledged, yet the queue starts without one. */
    predicate FillThrows() {
      Remaining() > 0 && !synAcked && queue != [] && !queue[0].seg.header.syn
    }

    /** How many bytes `fill_window` reads, whether that is the last of an ended stream whose FIN is
        not acknowledged, and whether the FIN goes out now. */
    function Readable(): nat
      requires stream.Valid()
    {
      Min(Remaining(), stream.BufferSize())
    }

    predicate Closing()
      requires stream.Valid()
    {
      stream.Read(Readable()).Eof() && !finAcked
    }

    predicate SendsFin()
      requires stream.Valid()
    {
      Closing() && Remaining() >= Readable() + 1
    }

    /** After the read: a FIN is in the queue already, or there is nothing to send. */
    predicate NothingToSend()
      requires stream.Valid()
    {
      || (Closing() && queue != [] && queue[|queue| - 1].seg.header.fin)
      || (Readable() == 0 && synAcked && !SendsFin())
    }

    function FillWindow(): Sender
      requires stream.Valid()
    {
      if Remaining() == 0 || (!synAcked && queue != []) then this
      else
        var s := this.(stream := stream.Read(Readable()));
        if NothingToSend() then s else s.EmitCut(!synAcked, SendsFin(), stream.Buffered()[..Readable()])
    }

    function EmitCut(syn: bool, fin: bool, data: seq<byte>): Sender {
      Emit(Cut(isn, next, syn, fin, data))
    }

    function Emit(segs: seq<TcpSegment>): Sender {
      this.(next := next + SpanOf(segs), inFlight := inFlight + SpanOf(segs),
            queue := queue + Track(segs, initialRto, lastTick), out := out + segs)
    }

    function EmitOne(seg: TcpSegment): Sender {
      this.(next := next + seg.LengthInSequenceSpace(), inFlight := inFlight + seg.LengthInSequenceSpace(),
            queue := queue + [Outstanding(seg, initialRto, lastTick)], out := out + [seg])
    }

    function AckReceived(ackno: u32, win: u16): Sender {
      var ack := Unwrap(ackno, isn, next);
      if ack > next then this else AcceptAck(ack, win)
    }

    /** An acknowledgment of everything before absolute number `ack`. */
    function AcceptAck(ack: nat, win: u16): Sender {
      var s := SetWindow(win).PopAcked(ack);
      if s.queue != [] && |s.queue| < |queue| then s.RestartTimer() else s
    }

    function SetWindow(win: u16): Sender {
      this.(window := if win == 0 then 1 else win, windowZero := win == 0)
    }

    function RestartTimer(): Sender
      requires queue != []
    {
      this.(queue := queue[0 := queue[0].(rto := initialRto, time := lastTick)])
    }

    /** The oldest segment in flight ends at or before `ack`. */
    predicate FrontAcked(ack: nat) {
      queue != [] && Unwrap(queue[0].seg.header.seqno, isn, next) + queue[0].seg.LengthInSequenceSpace() <= ack
    }

    function PopFront(): Sender
      requires queue != []
    {
      var seg := queue[0].seg;
      this.(retransmissions := 0,
            synAcked := synAcked || seg.header.syn,
            finAcked := finAcked || seg.header.fin,
            inFlight := inFlight - seg.LengthInSequenceSpace(),
            queue := queue[1..])
    }

    function PopAcked(ack: nat): Sender
      decreases |queue|
    {
      if FrontAcked(ack) then PopFront().PopAcked(ack) else this
    }

    function Tick(ms: nat): Sender {
      var now := lastTick + ms;
      if queue == [] || queue[0].time + queue[0].rto > now then this.(lastTick := now)
      else
        var head := queue[0].(rto := if windowZero then queue[0].rto else queue[0].rto * 2, time := now);
        this.(lastTick := now, queue := queue[0 := head], retransmissions := retransmissions + 1,
            out := out + [head.seg])
    }

    function SendEmpty(): Sender {
      this.(out := out + [TcpSegment(DEFAULT_HEADER.(seqno := Wrap(next, isn)), [])])
    }
  }

  function NewSender(capacity: nat, retxTimeout: u16, isn: u32): Sender {
    Sender(isn, retxTimeout, NewStream(capacity), false, false, 0, 0, 1, false, 0, [], 0, [])
  }

  /** Sequence numbers taken by a list of segments. */
  function SpanOf(segs: seq<TcpSegment>): nat {
    if segs == [] then 0 else segs[0].LengthInSequenceSpace() + SpanOf(segs[1..])
  }

  function Track(segs: seq<TcpSegment>, rto: nat, time: nat): (q: seq<Outstanding>)
    ensures |q| == |segs| && forall k :: 0 <= k < |segs| ==> q[k] == Outstanding(segs[k], rto, time)
  {
    seq(|segs|, k requires 0 <= k < |segs| => Outstanding(segs[k], rto, time))
  }

  /** `data` cut into segments from number `next` on, FIN on the last; the flag SYN stays set. */
  function Cut(isn: u32, next: nat, syn: bool, fin: bool, data: seq<byte>): (segs: seq<TcpSegment>)
    ensures segs != []
    decreases |data|
  {
    var header := DEFAULT_HEADER.(seqno := Wrap(next, isn), syn := syn);
    if |data| <= MAX_PAYLOAD_SIZE then [TcpSegment(header.(fin := fin), data)]
    else
      var seg := TcpSegment(header, data[..MAX_PAYLOAD_SIZE]);
      [seg] + Cut(isn, next + seg.LengthInSequenceSpace(), syn, fin, data[MAX_PAYLOAD_SIZE..])
  }

  // ----- the object -----

  class TcpSender {
    const isn: u32
    const initialRto: nat
    const stream: ByteStream
    var synAcked: bool
    var finAcked: bool
    var lastTick: nat
    var retransmissions: nat
    var window: nat
    var windowZero: bool
    var inFlight: int
    var queue: seq<Outstanding>
    var next: nat
    var out: seq<TcpSegment>

    ghost function Repr(): set<object> {
      {this} + stream.Repr()
    }

    ghost predicate Valid()
      reads Repr()
    {
      stream.Valid()
    }

    ghost function State(): (s: Sender)
      requires Valid()
      reads Repr()
      ensures s.stream.Valid()
    {
      Sender(isn, initialRto, stream.State(), synAcked, finAcked, lastTick, retransmissions,
             window, windowZero, inFlight, queue, next, out)
    }

    constructor (capacity: nat, retxTimeout: u16, isn: u32)
      ensures Valid() && fresh(Repr()) && State() == NewSender(capacity, retxTimeout, isn)
    {
      this.isn := isn;
      initialRto := retxTimeout;
      stream := new ByteStream(capacity);
      synAcked, finAcked, lastTick, retransmissions := false, false, 0, 0;
      window, windowZero, inFlight, queue, next, out := 1, false, 0, [], 0, [];
    }

    method FillWindow() returns (thrown: bool)
      requires Valid()
      modifies Repr()
      ensures Valid() && State() == old(State()).FillWindow()
      ensures thrown <==> old(State()).FillThrows()
    {
      thrown := false;
      var remaining := if window > inFlight then window - inFlight else 0;
      if remaining == 0 {
        return;
      }
      var header := DEFAULT_HEADER;
      if !synAcked {
        if queue != [] && queue[0].seg.header.syn {
          return;
        } else if queue != [] && !queue[0].seg.header.syn {
          return true;
        }
        header := header.(syn := true);
      }
      ReadAndSend(remaining, header);
    }

    method ReadAndSend(remaining: nat, syn: TcpHeader)
      requires Valid() && remaining == State().Remaining() > 0 && (synAcked || queue == [])
      requires syn == DEFAULT_HEADER.(syn := !synAcked)
      modifies Repr()
      ensures Valid() && State() == old(State()).FillWindow()
    {
      var skip, header, data := TakeData(remaining, syn);
      if !skip {
        SendPieces(header, data);
      }
    }

    method TakeData(remaining: nat, syn: TcpHeader) returns (skip: bool, header: TcpHeader, data: seq<byte>)
      requires Valid() && remaining == State().Remaining()
      requires syn == DEFAULT_HEADER.(syn := !synAcked)
      modifies stream.Repr()
      ensures Valid()
      ensures State() == old(State()).(stream := old(State()).stream.Read(old(State()).Readable()))
      ensures data == old(State()).stream.Buffered()[..old(State()).Readable()]
      ensures skip == old(State()).NothingToSend()
      ensures !skip ==> header == syn.(fin := old(State()).SendsFin())
    {
      header := syn;
      var size := stream.BufferSize();
      var readable := Min(remaining, size);
      var _, str := stream.Read(readable);
      data := str;
      if stream.Eof() && !finAcked {
        if queue != [] && queue[|queue| - 1].seg.header.fin {
          return true, header, data;
        }
        if remaining >= readable + 1 {
          header := header.(fin := true);
        }
      }
      skip := readable == 0 && !(header.syn || header.fin);
    }

    /** The do-while loop of `fill_window`. */
    method SendPieces(first: TcpHeader, data: seq<byte>)
      requires Valid() && first == DEFAULT_HEADER.(syn := first.syn, fin := first.fin)
      modifies this
      ensures Valid() && State() == old(State()).EmitCut(first.syn, first.fin, data)
    {
      var header := first;
      var index, readable := 0, |data|;
      ghost var rest := data;
      while true
        invariant Valid() && header == DEFAULT_HEADER.(seqno := header.seqno, syn := first.syn, fin := header.fin)
        invariant header.fin ==> first.fin
        invariant 0 <= index && 0 <= readable && index * MAX_PAYLOAD_SIZE + readable == |data|
        invariant rest == data[index * MAX_PAYLOAD_SIZE..]
        invariant State().EmitCut(first.syn, first.fin, rest) == old(State()).EmitCut(first.syn, first.fin, data)
        decreases readable
      {
        if first.fin && readable <= MAX_PAYLOAD_SIZE {
          header := header.(fin := true);
        } else if first.fin && readable > MAX_PAYLOAD_SIZE {
          header := header.(fin := false);
        }
        var payload := data[index * MAX_PAYLOAD_SIZE..][..Min(MAX_PAYLOAD_SIZE, readable)];
        index := index + 1;
        header := header.(seqno := Wrap(next, isn));
        EmitCutStep(State(), first.syn, first.fin, rest);
        SendOne(header, payload);
        readable := if readable > MAX_PAYLOAD_SIZE then readable - MAX_PAYLOAD_SIZE else 0;
        if readable == 0 {
          return;
        }
        rest := rest[MAX_PAYLOAD_SIZE..];
      }
    }

    method SendOne(header: TcpHeader, payload: seq<byte>)
      requires Valid()
      modifies this
      ensures Valid() && State() == old(State()).EmitOne(TcpSegment(header, payload))
    {
      var seg := TcpSegment(header, payload);
      next := next + seg.LengthInSequenceSpace();
      inFlight := inFlight + seg.LengthInSequenceSpace();
      out := out + [seg];
      queue := queue + [Outstanding(seg, initialRto, lastTick)];
    }

    method AckReceived(ackno: u32, win: u16)
      requires Valid()
      modifies this
      ensures Valid() && State() == old(State()).AckReceived(ackno, win)
    {
      var ack := Unwrap(ackno, isn, next);
      if ack > next {
        return;
      }
      AcceptAck(ack, win);
    }

    method AcceptAck(ack: nat, win: u16)
      requires Valid()
      modifies this
      ensures Valid() && State() == old(State()).AcceptAck(ack, win)
    {
      window := win;
      if win == 0 {
        window := 1;
        windowZero := true;
      } else {
        window := win;
        windowZero := false;
      }
      ghost var s := State();
      assert s == old(State()).SetWindow(win);
      var restart := PopAcknowledged(ack);
      assert State() == s.PopAcked(ack);
      if queue != [] && restart {
        queue := queue[0 := queue[0].(rto := initialRto, time := lastTick)];
      }
    }

    /** The loop of `ack_received`. */
    method PopAcknowledged(ack: nat) returns (restart: bool)
      requires Valid()
      modifies this`retransmissions, this`synAcked, this`finAcked, this`inFlight, this`queue
      ensures Valid() && State() == old(State()).PopAcked(ack)
      ensures |queue| <= old(|queue|) && (restart <==> |queue| < old(|queue|))
    {
      restart := false;
      while queue != [] && Unwrap(queue[0].seg.header.seqno, isn, next) + queue[0].seg.LengthInSequenceSpace() <= ack
        invariant Valid() && State().PopAcked(ack) == old(State()).PopAcked(ack)
        invariant |queue| <= old(|queue|) && (restart <==> |queue| < old(|queue|))
        decreases |queue|
      {
        assert State().FrontAcked(ack);
        PopFront();
        restart := true;
      }
      assert !State().FrontAcked(ack);
    }

    method PopFront()
      requires Valid() && queue != []
      modifies this`retransmissions, this`synAcked, this`finAcked, this`inFlight, this`queue
      ensures Valid() && State() == old(State()).PopFront()
    {
      retransmissions := 0;
      var front := queue[0].seg;
      if front.header.syn && !synAcked {
        synAcked := true;
      }
      if front.header.fin && !finAcked {
        finAcked := true;
      }
      inFlight := inFlight - front.LengthInSequenceSpace();
      queue := queue[1..];
    }

    method Tick(ms: nat)
      requires Valid()
      modifies this
      ensures Valid() && State() == old(State()).Tick(ms)
    {
      lastTick := lastTick + ms;
      if queue != [] {
        var front := queue[0];
        if front.time + front.rto <= lastTick {
          if !windowZero {
            front := front.(rto := front.rto * 2);
          }
          front := front.(time := lastTick);
          queue := queue[0 := front];
          retransmissions := retransmissions + 1;
          out := out + [front.seg];
        }
      }
    }

    method SendEmptySegment()
      requires Valid()
      modifies this`out
      ensures Valid() && State() == old(State()).SendEmpty()
    {
      out := out + [TcpSegment(DEFAULT_HEADER.(seqno := Wrap(next, isn)), [])];
    }
  }

  lemma TrackCons(seg: TcpSegment, more: seq<TcpSegment>, rto: nat, time: nat)
    ensures Track([seg] + more, rto, time) == [Outstanding(seg, rto, time)] + Track(more, rto, time)
  {
  }

  lemma EmitCons(s: Sender, seg: TcpSegment, more: seq<TcpSegment>)
    ensures s.Emit([seg] + more) == s.EmitOne(seg).Emit(more)
  {
    assert ([seg] + more)[1..] == more;
    assert SpanOf([seg] + more) == seg.LengthInSequenceSpace() + SpanOf(more);
    TrackCons(seg, more, s.initialRto, s.lastTick);
    var head := [Outstanding(seg, s.initialRto, s.lastTick)];
    assert s.queue + (head + Track(more, s.initialRto, s.lastTick)) == s.queue + head
        + Track(more, s.initialRto, s.lastTick);
    assert s.out + ([seg] + more) == s.out + [seg] + more;
  }

  /** Sending cut data is sending its first segment and then the rest. */
  lemma EmitCutStep(s: Sender, syn: bool, fin: bool, data: seq<byte>)
    ensures
      var last := |data| <= MAX_PAYLOAD_SIZE;
      var header := DEFAULT_HEADER.(seqno := Wrap(s.next, s.isn), syn := syn, fin := fin && last);
      var sent := s.EmitOne(TcpSegment(header, data[..Min(MAX_PAYLOAD_SIZE, |data|)]));
      s.EmitCut(syn, fin, data) == if last then sent else sent.EmitCut(syn, fin, data[MAX_PAYLOAD_SIZE..])
  {
    var last := |data| <= MAX_PAYLOAD_SIZE;
    var header := DEFAULT_HEADER.(seqno := Wrap(s.next, s.isn), syn := syn, fin := fin && last);
    var seg := TcpSegment(header, data[..Min(MAX_PAYLOAD_SIZE, |data|)]);
    assert last ==> data[..|data|] == data;
    var more := if last then [] else Cut(s.isn, s.next + seg.LengthInSequenceSpace(), syn, fin,
        data[MAX_PAYLOAD_SIZE..]);
    assert Cut(s.isn, s.next, syn, fin, data) == [seg] + more;
    EmitCons(s, seg, more);
    if last {
      EmitNothing(s.EmitOne(seg));
    }
  }

  lemma EmitNothing(s: Sender)
    ensures s.Emit([]) == s
  {
    assert s.queue + Track([], s.initialRto, s.lastTick) == s.queue && s.out + [] == s.out;
  }
}
