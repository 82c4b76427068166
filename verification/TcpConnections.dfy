/** One endpoint of a TCP connection: a sender, a receiver, and when the two are done. */
module TcpConnections {
  import opened Types
  import opened WrappingIntegers
  import opened ByteStreams
  import opened BufferStrings
  import opened StreamReassemblers
  import opened TcpSegments
  import opened TcpReceivers
  import opened TcpSenders

  const MAX_RETX_ATTEMPTS: nat := 8

  datatype Config = Config(rtTimeout: u16, recvCapacity: nat, sendCapacity: nat, isn: u32)

  datatype Connection = Connection(
    rtTimeout: u16, receiver: Receiver, sender: Sender, out: seq<TcpSegment>,
    linger: bool, reset: bool, lastReceived: nat, finFirst: bool)
  {
    /** Both byte streams are in order. */
    ghost predicate Sound() {
      receiver.Sound() && sender.stream.Valid()
    }

    /** ... and so is the list of waiting pieces, without which a further segment has no meaning. */
    ghost predicate Valid() {
      receiver.Valid() && sender.stream.Valid()
    }

    /** The inbound stream is done. */
    predicate InboundEof()
      requires Sound()
    {
      receiver.Output().Eof()
    }

    predicate Active()
      requires Sound()
    {
      !reset && !(sender.finAcked && InboundEof() && !linger)
    }

    /** Moves the sender's segments out, with the receiver's acknowledgment and window on each. */
    function Flush(): Connection
      requires Sound()
    {
      this.(out := out + StampAll(receiver, sender.out), sender := sender.(out := []))
    }

    /** One turn of the loop that does it. */
    function FlushOne(): Connection
      requires Sound() && sender.out != []
    {
      this.(out := out + [Stamp(receiver, sender.out[0])], sender := sender.(out := sender.out[1..]))
    }

    function SetReset(): Connection {
      this.(reset := true, sender := sender.(stream := sender.stream.SetError()), receiver := receiver.SetError())
    }

    function SendReset(): Connection {
      var seg := TcpSegment(DEFAULT_HEADER.(seqno := Wrap(sender.next, sender.isn), rst := true), []);
      this.(out := out + [seg], sender := sender.(out := [])).SetReset()
    }

    function Connect(): Connection
      requires Sound()
    {
      this.(sender := sender.FillWindow()).Flush()
    }

    function Written(data: seq<byte>): Connection
      requires Sound()
    {
      this.(sender := sender.(stream := sender.stream.Write(data)))
    }

    function Write(data: seq<byte>): Connection
      requires Sound()
    {
      Written(data).Connect()
    }

    function Ended(): Connection {
      this.(sender := sender.(stream := sender.stream.EndInput()))
    }

    function EndInputStream(): Connection
      requires Sound()
    {
      Ended().Connect()
    }

    /** The tick sees enough silence to stop lingering. */
    predicate SilenceEnds(ms: nat)
      requires Sound()
    {
      sender.synAcked && InboundEof() && linger && lastReceived + ms >= 10 * rtTimeout
    }

    function Tick(ms: nat): Connection
      requires Sound()
    {
      if sender.retransmissions >= MAX_RETX_ATTEMPTS then SendReset() else Ticked(ms)
    }

    function Ticked(ms: nat): Connection
      requires Sound()
    {
      Waited(ms).Flush()
    }

    function Waited(ms: nat): (c: Connection)
      requires Sound()
      ensures c.Sound()
    {
      this.(linger := linger && !SilenceEnds(ms), sender := sender.Tick(ms), lastReceived := lastReceived + ms)
    }

    /** Both streams are done and this side was the first to finish: only a FIN is still of interest. */
    predicate Ignores(seg: TcpSegment)
      requires Sound()
    {
      sender.finAcked && InboundEof() && finFirst && !seg.header.fin
    }

    function SegmentReceived(seg: TcpSegment): Connection
      requires Valid()
    {
      var c := this.(lastReceived := 0);
      if seg.header.rst then c.SetReset()
      else if !c.Active() || c.Ignores(seg) then c
      else c.Digest(seg).Reply(seg)
    }

    predicate ReceiveThrows(seg: TcpSegment)
      requires Valid()
    {
      !seg.header.rst && Active() && !Ignores(seg) && Digest(seg).ReplyThrows(seg)
    }

    /** Hands the segment to both halves, then settles who finished first and whether to linger. */
    function Digest(seg: TcpSegment): (c: Connection)
      requires Valid()
      ensures c.Sound()
    {
      Handed(seg).Settled()
    }

    function Handed(seg: TcpSegment): (c: Connection)
      requires Valid()
      ensures c.Sound()
    {
      var s := if seg.header.ack then sender.AckReceived(seg.header.ackno, seg.header.win) else sender;
      AckKeepsStream(sender, seg.header.ackno, seg.header.win);
      ReceiveContinues(receiver, seg);
      this.(sender := s, receiver := receiver.SegmentReceived(seg))
    }

    /** The peer's FIN was seen while this side's stream is not finished. */
    predicate PeerFinishesFirst()
      requires Sound()
    {
      receiver.fsn.Some? && !sender.stream.Eof()
    }

    function Settled(): (c: Connection)
      requires Sound()
      ensures c.Sound()
    {
      var first := finFirst && !PeerFinishesFirst();
      this.(finFirst := first, linger := linger && !(sender.synAcked && InboundEof() && !first))
    }

    /** A segment without length just before the window. */
    predicate IsKeepAlive(seg: TcpSegment) {
      receiver.Ackno().Some? && seg.LengthInSequenceSpace() == 0
          && (receiver.Ackno().value - 1) % TWO_32 == seg.header.seqno
    }

    function Reply(seg: TcpSegment): Connection
      requires Sound()
    {
      if IsKeepAlive(seg) then this.(sender := sender.SendEmpty()).Flush()
      else Filled(seg).Answer(seg)
    }

    /** The reply would call `fill_window` in a state in which that throws. */
    predicate ReplyThrows(seg: TcpSegment) {
      !IsKeepAlive(seg) && (sender.synAcked || seg.header.syn) && sender.FillThrows()
    }

    function Filled(seg: TcpSegment): (c: Connection)
      requires Sound()
      ensures c.Sound()
    {
      this.(sender := if sender.synAcked || seg.header.syn then sender.FillWindow() else sender)
    }

    /** Anything that takes up sequence numbers is acknowledged, with an empty segment if need be. */
    function Answer(seg: TcpSegment): Connection
      requires Sound()
    {
      var s := if sender.out == [] && seg.LengthInSequenceSpace() >= 1 then sender.SendEmpty() else sender;
      this.(sender := s).Flush()
    }
  }

  lemma AckKeepsStream(s: Sender, ackno: u32, win: u16)
    ensures s.AckReceived(ackno, win).stream == s.stream
  {
    PopKeepsStream(s.SetWindow(win), Unwrap(ackno, s.isn, s.next));
  }

  lemma {:induction false} PopKeepsStream(s: Sender, ack: nat)
    ensures s.PopAcked(ack).stream == s.stream
    decreases |s.queue|
  {
    if s.FrontAcked(ack) {
      PopKeepsStream(s.PopFront(), ack);
    }
  }

  function Stamp(r: Receiver, seg: TcpSegment): TcpSegment
    requires r.Sound()
  {
    var h := seg.header.(win := r.AdvertisedWindow());
    seg.(header := if r.Ackno().Some? then h.(ack := true, ackno := r.Ackno().value) else h)
  }

  function StampAll(r: Receiver, segs: seq<TcpSegment>): (stamped: seq<TcpSegment>)
    requires r.Sound()
    ensures |stamped| == |segs| && forall k :: 0 <= k < |segs| ==> stamped[k] == Stamp(r, segs[k])
  {
    seq(|segs|, k requires 0 <= k < |segs| => Stamp(r, segs[k]))
  }

  function NewConnection(cfg: Config): (c: Connection)
    ensures c.Valid()
  {
    Connection(cfg.rtTimeout, NewReceiver(cfg.recvCapacity), NewSender(cfg.sendCapacity, cfg.rtTimeout, cfg.isn), [],
               true, false, 0, true)
  }

  // ----- what can happen to a connection -----

  datatype Action =
    | Connect
    | Write(data: seq<byte>)
    | End
    | Tick(ms: nat)
    | Receive(seg: TcpSegment)
    | Read(n: nat)

  predicate Enabled(c: Connection, e: Action)
    requires c.Sound()
  {
    e.Read? ==> e.n <= c.receiver.Output().BufferSize()
  }

  function AfterAction(c: Connection, e: Action): Connection
    requires c.Valid() && Enabled(c, e)
  {
    match e
    case Connect => c.Connect()
    case Write(data) => c.Write(data)
    case End => c.EndInputStream()
    case Tick(ms) => c.Tick(ms)
    case Receive(seg) => c.SegmentReceived(seg)
    case Read(n) => c.(receiver := c.receiver.Read(n))
  }

  // ----- the object -----

  class TcpConnection {
    const rtTimeout: u16
    const receiver: TcpReceiver
    const sender: TcpSender
    var out: seq<TcpSegment>
    var linger: bool
    var reset: bool
    var lastReceived: nat
    var finFirst: bool

    ghost function Repr(): set<object> {
      {this} + receiver.Repr() + sender.Repr()
    }

    ghost predicate Valid()
      reads Repr()
    {
      receiver.Valid() && sender.Valid() && receiver.Repr() !! sender.Repr()
    }

    ghost function State(): (c: Connection)
      requires Valid()
      reads Repr()
      ensures c.Sound()
    {
      Connection(rtTimeout, receiver.State(), sender.State(), out, linger, reset, lastReceived, finFirst)
    }

    constructor (cfg: Config)
      ensures Valid() && fresh(Repr()) && State() == NewConnection(cfg)
    {
      hide NewSender, NewReceiver, NewStream, NewReassembler;
      rtTimeout := cfg.rtTimeout;
      receiver := new TcpReceiver(cfg.recvCapacity);
      sender := new TcpSender(cfg.sendCapacity, cfg.rtTimeout, cfg.isn);
      out, linger, reset, lastReceived, finFirst := [], true, false, 0, true;
    }

    method SendAckIfNeed()
      requires Valid()
      modifies this`out, sender`out
      ensures Valid() && State() == old(State()).Flush()
    {
      hide Stamp, Receiver.Ackno;
      while sender.out != []
        invariant Valid() && State().Flush() == old(State()).Flush()
        decreases |sender.out|
      {
        FlushStep(State());
        SendOne();
      }
      FlushDone(State());
    }

    method SendOne()
      requires Valid() && sender.out != []
      modifies this`out, sender`out
      ensures Valid() && State() == old(State()).FlushOne()
    {
      hide Stamp;
      var seg := Stamped(sender.out[0]);
      sender.out := sender.out[1..];
      out := out + [seg];
    }

    method Stamped(plain: TcpSegment) returns (seg: TcpSegment)
      requires Valid()
      ensures seg == Stamp(receiver.State(), plain)
    {
      hide Receiver.Ackno, Wrap;
      seg := plain;
      var ackno := receiver.Ackno();
      if ackno.Some? {
        seg := seg.(header := seg.header.(ack := true, ackno := ackno.value));
      }
      var size := receiver.WindowSize();
      seg := seg.(header := seg.header.(win := Min(0xffff, size)));
    }

    method SetRst()
      requires Valid()
      modifies this`reset, sender.stream`error, receiver.reassembler.output`error
      ensures Valid() && State() == old(State()).SetReset()
    {
      reset := true;
      sender.stream.SetError();
      receiver.reassembler.output.SetError();
    }

    method SendRstToPeer()
      requires Valid()
      modifies this`out, this`reset, sender`out, sender.stream`error, receiver.reassembler.output`error
      ensures Valid() && State() == old(State()).SendReset()
    {
      ClearOut();
      var seg := TcpSegment(DEFAULT_HEADER.(seqno := Wrap(sender.next, sender.isn), rst := true), []);
      out := out + [seg];
      assert State() == old(State()).(out := old(State()).out + [seg], sender := old(State()).sender.(out := []));
      SetRst();
    }

    method ClearOut()
      requires Valid()
      modifies sender`out
      ensures Valid() && State() == old(State()).(sender := old(State()).sender.(out := []))
    {
      while sender.out != []
        decreases |sender.out|
      {
        sender.out := sender.out[1..];
      }
    }

    predicate Active()
      requires Valid()
      reads Repr()
      ensures Active() <==> State().Active()
    {
      !reset && !(sender.finAcked && receiver.reassembler.output.Eof() && !linger)
    }

    method Connect() returns (thrown: bool)
      requires Valid()
      modifies Repr()
      ensures Valid() && (thrown <==> old(State()).sender.FillThrows())
      ensures State() == if thrown then old(State()) else old(State()).Connect()
    {
      hide Sender.FillWindow, Connection.Flush, Sender.FillThrows;
      ThrowChangesNothing(State().sender);
      thrown := sender.FillWindow();
      if !thrown {
        SendAckIfNeed();
      }
    }

    method Write(data: seq<byte>) returns (thrown: bool, written: nat)
      requires Valid()
      modifies Repr()
      ensures Valid() && (thrown <==> old(State()).sender.FillThrows())
      ensures written == |old(State()).sender.stream.Write(data).accepted| - |old(State()).sender.stream.accepted|
      ensures State() == if thrown then old(State()).Written(data) else old(State()).Write(data)
    {
      hide Sender.FillWindow, Connection.Flush;
      written := sender.stream.Write(data);
      assert State() == old(State()).Written(data);
      thrown := Connect();
    }

    method EndInputStream() returns (thrown: bool)
      requires Valid()
      modifies Repr()
      ensures Valid() && (thrown <==> old(State()).sender.FillThrows())
      ensures State() == if thrown then old(State()).Ended() else old(State()).EndInputStream()
    {
      hide Sender.FillWindow, Connection.Flush;
      sender.stream.EndInput();
      assert State() == old(State()).Ended();
      thrown := Connect();
    }

    method Tick(ms: nat)
      requires Valid()
      modifies Repr()
      ensures Valid() && State() == old(State()).Tick(ms)
    {
      hide Connection.Ticked, Connection.SendReset;
      if sender.retransmissions >= MAX_RETX_ATTEMPTS {
        SendRstToPeer();
        return;
      }
      TickOn(ms);
    }

    method TickOn(ms: nat)
      requires Valid()
      modifies this`linger, this`lastReceived, this`out, sender
      ensures Valid() && State() == old(State()).Ticked(ms)
    {
      hide Connection.Waited, Connection.Flush;
      Wait(ms);
      SendAckIfNeed();
    }

    method Wait(ms: nat)
      requires Valid()
      modifies this`linger, this`lastReceived, sender
      ensures Valid() && State() == old(State()).Waited(ms)
    {
      hide Sender.Tick, Connection.SilenceEnds;
      SettleLinger(ms);
      TickSender(ms);
    }

    method TickSender(ms: nat)
      requires Valid()
      modifies this`lastReceived, sender
      ensures Valid()
      ensures State() == old(State()).(sender := old(State()).sender.Tick(ms),
        lastReceived := old(State()).lastReceived + ms)
    {
      hide Sender.Tick;
      sender.Tick(ms);
      lastReceived := lastReceived + ms;
    }

    method SettleLinger(ms: nat)
      requires Valid()
      modifies this`linger
      ensures Valid() && State() == old(State()).(linger := old(State()).linger && !old(State()).SilenceEnds(ms))
    {
      if sender.synAcked && receiver.reassembler.output.Eof() && linger {
        if lastReceived + ms >= 10 * rtTimeout {
          linger := false;
        }
      }
    }

    method SegmentReceived(seg: TcpSegment) returns (thrown: bool)
      requires Valid() && State().Valid()
      modifies Repr()
      ensures Valid()
      ensures thrown <==> old(State()).ReceiveThrows(seg)
      ensures State() == if thrown then old(State()).(lastReceived := 0).Digest(seg)
        else old(State()).SegmentReceived(seg)
    {
      hide Connection.Digest, Connection.Reply, Connection.ReplyThrows, Connection.SetReset;
      thrown := false;
      lastReceived := 0;
      ghost var c := State();
      assert c == old(State()).(lastReceived := 0);
      if seg.header.rst {
        SetRst();
        return;
      }
      if !Active() {
        return;
      }
      if sender.finAcked && receiver.reassembler.output.Eof() {
        if finFirst && !seg.header.fin {
          return;
        }
      }
      DigestIgnoresTime(old(State()), seg);
      DigestSegment(seg);
      thrown := ReplyTo(seg);
    }

    method DigestSegment(seg: TcpSegment)
      requires Valid() && State().Valid()
      modifies Repr()
      ensures Valid() && State() == old(State()).Digest(seg)
    {
      hide Connection.Handed, Connection.Settled;
      HandToHalves(seg);
      Settle();
    }

    method HandToHalves(seg: TcpSegment)
      requires Valid() && State().Valid()
      modifies sender, receiver.Repr()
      ensures Valid() && State() == old(State()).Handed(seg)
    {
      hide Sender.AckReceived, Receiver.SegmentReceived;
      if seg.header.ack {
        sender.AckReceived(seg.header.ackno, seg.header.win);
      }
      receiver.SegmentReceived(seg);
    }

    method Settle()
      requires Valid()
      modifies this`finFirst, this`linger
      ensures Valid() && State() == old(State()).Settled()
    {
      if receiver.fsn.Some? && !sender.stream.Eof() {
        finFirst := false;
      }
      if sender.synAcked && receiver.reassembler.output.Eof() && !finFirst {
        linger := false;
      }
    }

    method ReplyTo(seg: TcpSegment) returns (thrown: bool)
      requires Valid()
      modifies Repr()
      ensures Valid() && (thrown <==> old(State()).ReplyThrows(seg))
      ensures State() == if thrown then old(State()) else old(State()).Reply(seg)
    {
      hide Connection.IsKeepAlive, Connection.Filled, Connection.Answer, Sender.FillThrows, Connection.Flush,
           Sender.SendEmpty;
      thrown := false;
      var keepAlive := KeepAlive(seg);
      if keepAlive {
        SendEmptyAck();
        return;
      }
      ThrowFillsNothing(State(), seg);
      thrown := FillIfOpen(seg);
      if !thrown {
        AnswerTo(seg);
      }
    }

    method KeepAlive(seg: TcpSegment) returns (yes: bool)
      requires Valid()
      ensures yes == State().IsKeepAlive(seg)
    {
      hide Receiver.Ackno;
      var ackno := receiver.Ackno();
      yes := ackno.Some? && seg.LengthInSequenceSpace() == 0 && (ackno.value - 1) % TWO_32 == seg.header.seqno;
    }

    method SendEmptyAck()
      requires Valid()
      modifies this`out, sender`out
      ensures Valid() && State() == old(State()).(sender := old(State()).sender.SendEmpty()).Flush()
    {
      hide Connection.Flush;
      sender.SendEmptySegment();
      SendAckIfNeed();
    }

    method FillIfOpen(seg: TcpSegment) returns (thrown: bool)
      requires Valid()
      modifies sender.Repr()
      ensures Valid() && State() == old(State()).Filled(seg)
      ensures thrown <==> (old(State()).sender.synAcked || seg.header.syn) && old(State()).sender.FillThrows()
    {
      hide Sender.FillWindow, Sender.FillThrows;
      thrown := false;
      if sender.synAcked || seg.header.syn {
        thrown := sender.FillWindow();
      }
    }

    method AnswerTo(seg: TcpSegment)
      requires Valid()
      modifies this`out, sender`out
      ensures Valid() && State() == old(State()).Answer(seg)
    {
      hide Connection.Flush;
      var sendEmpty := false;
      if |seg.payload| != 0 {
        sendEmpty := true;
      } else if |seg.payload| == 0 && seg.LengthInSequenceSpace() >= 1 {
        sendEmpty := true;
      }
      if sender.out == [] && sendEmpty {
        sender.SendEmptySegment();
      }
      SendAckIfNeed();
    }
  }

  /** `fill_window` throws before it changes anything. */
  lemma ThrowChangesNothing(s: Sender)
    requires s.stream.Valid()
    ensures s.FillThrows() ==> s.FillWindow() == s
  {
  }

  lemma ThrowFillsNothing(c: Connection, seg: TcpSegment)
    requires c.Sound()
    ensures c.sender.FillThrows() ==> c.Filled(seg) == c
  {
    hide Sender.FillWindow, Sender.FillThrows;
    ThrowChangesNothing(c.sender);
  }

  lemma DigestIgnoresTime(c: Connection, seg: TcpSegment)
    requires c.Valid()
    ensures
      var d := c.(lastReceived := 0);
      d.Valid() && d.Digest(seg) == c.Digest(seg).(lastReceived := 0)
          && (d.Digest(seg).ReplyThrows(seg) == c.Digest(seg).ReplyThrows(seg))
  {
  }

  lemma FlushStep(c: Connection)
    requires c.Sound() && c.sender.out != []
    ensures c.Flush() == c.FlushOne().Flush()
  {
    hide Stamp;
    var segs := c.sender.out;
    assert StampAll(c.receiver, segs) == [Stamp(c.receiver, segs[0])] + StampAll(c.receiver, segs[1..]);
    assert c.out + ([Stamp(c.receiver, segs[0])] + StampAll(c.receiver, segs[1..]))
        == c.out + [Stamp(c.receiver, segs[0])] + StampAll(c.receiver, segs[1..]);
  }

  lemma FlushDone(c: Connection)
    requires c.Sound() && c.sender.out == []
    ensures c.Flush() == c
  {
    assert c.out + StampAll(c.receiver, []) == c.out;
  }
}
