/** A connection whose peer finished first, and which lingers all the same. */
module PassiveCloses {
  import opened Types
  import opened WrappingIntegers
  import opened ByteStreams
  import opened BufferStrings
  import opened StreamReassemblers
  import opened TcpSegments
  import opened TcpReceivers
  import opened TcpSenders
  import opened TcpConnections
  import ConnectionLifecycles

  // ----- the segments that arrive, from a peer whose initial number is 0 -----

  const SYN := TcpSegment(DEFAULT_HEADER.(syn := true), [])

  /** The peer's only byte with its FIN, and the acknowledgment of our SYN. */
  function LastData(b: byte): TcpSegment {
    TcpSegment(DEFAULT_HEADER.(seqno := 1, fin := true, ack := true, ackno := 1, win := 1000), [b])
  }

  /** The acknowledgment of our FIN. */
  const LAST_ACK := TcpSegment(DEFAULT_HEADER.(seqno := 3, ack := true, ackno := 2, win := 1000), [])

  lemma SmallNumber(v: u32, checkpoint: nat)
    requires v < 10 && checkpoint < 10
    ensures Unwrap(v, 0, checkpoint) == v
  {
    hide Unwrap;
    UnwrapNear(v, 0, checkpoint);
  }

  // ----- the receiver -----

  function Output(cap: nat, b: byte): Stream {
    Stream(cap, [b], 0, false, true, false)
  }

  lemma AfterSyn(cap: nat)
    requires cap > 1
    ensures NewReceiver(cap).SegmentReceived(SYN) == Receiver(Reassembler(1, NewStream(cap), cap, []), Some(0), None)
  {
    hide Unwrap;
    UnwrapFirst(0);
    PushAtBlank(NewReassembler(cap), false);
  }

  lemma AfterLastData(cap: nat, b: byte)
    requires cap > 1
    ensures Receiver(Reassembler(1, NewStream(cap), cap, []), Some(0), None).SegmentReceived(LastData(b))
         == Receiver(Reassembler(2, Output(cap, b), cap, []), Some(0), Some(1))
  {
    hide Unwrap;
    SmallNumber(1, 1);
    var r, p := Reassembler(1, NewStream(cap), cap, []), Piece(1, [b], true);
    assert Push([], p) == [p];
    assert r.Admitted([b], 1, true) == Some(p);
    assert r.Release([p]) == Reassembler(2, Output(cap, b), cap, []);
  }

  lemma AfterLastAck(cap: nat, b: byte)
    requires cap > 1
    ensures Receiver(Reassembler(2, Output(cap, b), cap, []), Some(0), Some(1)).SegmentReceived(LAST_ACK)
         == Receiver(Reassembler(2, Output(cap, b), cap, if cap > 2 then [Piece(3, [], false)] else []), Some(0),
             Some(1))
  {
    hide Unwrap;
    SmallNumber(3, 2);
    assert Push([], Piece(3, [], false)) == [Piece(3, [], false)];
  }

  // ----- the sender, whose initial number is 0 too -----

  const FIN := TcpSegment(DEFAULT_HEADER.(seqno := 1, fin := true), [])

  function SynSent(cap: nat, rto: u16): Sender {
    Sender(0, rto, NewStream(cap), false, false, 0, 0, 1, false, 1, [Outstanding(SYN, rto, 0)], 1, [])
  }

  function Open(cap: nat, rto: u16): Sender {
    Sender(0, rto, NewStream(cap), true, false, 0, 0, 1000, false, 0, [], 1, [])
  }

  function FinSent(cap: nat, rto: u16): Sender {
    Sender(0, rto, NewStream(cap).EndInput(), true, false, 0, 0, 1000, false, 1, [Outstanding(FIN, rto, 0)], 2, [])
  }

  function FinAcked(cap: nat, rto: u16): Sender {
    Sender(0, rto, NewStream(cap).EndInput(), true, true, 0, 0, 1000, false, 0, [], 2, [])
  }

  lemma SendsSyn(cap: nat, rto: u16)
    ensures NewSender(cap, rto, 0).FillWindow() == SynSent(cap, rto).(out := [SYN])
  {
    EmitCutStep(NewSender(cap, rto, 0), true, false, []);
  }

  /** The acknowledgment of the only segment in flight. */
  lemma LastSegmentAcked(s: Sender, ackno: u32, win: u16)
    requires |s.queue| == 1 && Unwrap(ackno, s.isn, s.next) == s.next
    requires Unwrap(s.queue[0].seg.header.seqno, s.isn, s.next) + s.queue[0].seg.LengthInSequenceSpace() == s.next
    ensures s.AckReceived(ackno, win) == s.SetWindow(win).PopFront()
  {
    hide Unwrap;
    var w := s.SetWindow(win);
    assert w.FrontAcked(s.next) && w.PopFront().queue == [];
    assert w.PopFront().PopAcked(s.next) == w.PopFront();
  }

  lemma SynIsAcked(cap: nat, rto: u16)
    ensures SynSent(cap, rto).AckReceived(1, 1000) == Open(cap, rto)
  {
    hide Unwrap, Sender.AckReceived;
    SmallNumber(1, 1);
    SmallNumber(0, 1);
    LastSegmentAcked(SynSent(cap, rto), 1, 1000);
  }

  lemma NothingToSend(cap: nat, rto: u16)
    ensures Open(cap, rto).FillWindow() == Open(cap, rto) && FinAcked(cap, rto).FillWindow() == FinAcked(cap, rto)
  {
    hide Cut, Wrap;
  }

  lemma SendsFin(cap: nat, rto: u16)
    ensures
      var s := Open(cap, rto);
      s.(stream := s.stream.EndInput()).FillWindow() == FinSent(cap, rto).(out := [FIN])
  {
    var s := Open(cap, rto);
    var e := s.(stream := s.stream.EndInput());
    assert e.stream.Buffered() == [] && e.SendsFin();
    EmitCutStep(e, false, true, []);
  }

  lemma FinIsAcked(cap: nat, rto: u16)
    ensures FinSent(cap, rto).AckReceived(2, 1000) == FinAcked(cap, rto)
  {
    hide Unwrap, Sender.AckReceived;
    SmallNumber(2, 2);
    SmallNumber(1, 2);
    LastSegmentAcked(FinSent(cap, rto), 2, 1000);
  }

  // ----- the connection -----

  /** Where a connection is that lingers and has not been reset. */
  ghost predicate At(c: Connection, r: Receiver, s: Sender, finFirst: bool) {
    c.receiver == r && c.sender == s && c.linger && !c.reset && c.finFirst == finFirst
  }

  function Started(cap: nat): Receiver {
    Receiver(Reassembler(1, NewStream(cap), cap, []), Some(0), None)
  }

  function Full(cap: nat, b: byte): Receiver {
    Receiver(Reassembler(2, Output(cap, b), cap, []), Some(0), Some(1))
  }

  function Done(cap: nat, b: byte): Receiver {
    Receiver(Reassembler(2, Output(cap, b), cap, if cap > 2 then [Piece(3, [], false)] else []), Some(0), Some(1))
  }

  lemma SynArrives(cfg: Config)
    requires cfg.isn == 0 && cfg.recvCapacity > 1
    ensures
      var c := NewConnection(cfg).SegmentReceived(SYN);
      At(c, Started(cfg.recvCapacity), SynSent(cfg.sendCapacity, cfg.rtTimeout), true)
  {
    hide Receiver.SegmentReceived, Sender.FillWindow;
    AfterSyn(cfg.recvCapacity);
    SendsSyn(cfg.sendCapacity, cfg.rtTimeout);
  }

  lemma LastDataArrives(cfg: Config, c: Connection, b: byte)
    requires cfg.recvCapacity > 1 && At(c, Started(cfg.recvCapacity), SynSent(cfg.sendCapacity, cfg.rtTimeout), true)
    ensures At(c.SegmentReceived(LastData(b)), Full(cfg.recvCapacity, b), Open(cfg.sendCapacity, cfg.rtTimeout), false)
  {
    hide Receiver.SegmentReceived, Sender.FillWindow, Sender.AckReceived;
    AfterLastData(cfg.recvCapacity, b);
    SynIsAcked(cfg.sendCapacity, cfg.rtTimeout);
    NothingToSend(cfg.sendCapacity, cfg.rtTimeout);
  }

  lemma InputEnds(cfg: Config, c: Connection, b: byte)
    requires cfg.recvCapacity > 1 && At(c, Full(cfg.recvCapacity, b), Open(cfg.sendCapacity, cfg.rtTimeout), false)
    ensures At(c.EndInputStream(), Full(cfg.recvCapacity, b), FinSent(cfg.sendCapacity, cfg.rtTimeout), false)
  {
    hide Sender.FillWindow;
    SendsFin(cfg.sendCapacity, cfg.rtTimeout);
  }

  lemma LastAckArrives(cfg: Config, c: Connection, b: byte)
    requires cfg.recvCapacity > 1 && At(c, Full(cfg.recvCapacity, b), FinSent(cfg.sendCapacity, cfg.rtTimeout), false)
    ensures At(c.SegmentReceived(LAST_ACK), Done(cfg.recvCapacity, b), FinAcked(cfg.sendCapacity, cfg.rtTimeout), false)
  {
    hide Receiver.SegmentReceived, Sender.FillWindow, Sender.AckReceived;
    AfterLastAck(cfg.recvCapacity, b);
    FinIsAcked(cfg.sendCapacity, cfg.rtTimeout);
    NothingToSend(cfg.sendCapacity, cfg.rtTimeout);
  }

  /** The peer finishes first, with a byte; our FIN goes out and is acknowledged; then the application
      reads the byte. Both streams are done and the peer was first, yet the connection stays active. */
  lemma PassiveCloserLingers(cfg: Config, b: byte) returns (actions: seq<Action>, states: seq<Connection>)
    requires cfg.isn == 0 && cfg.recvCapacity > 1
    ensures actions == [Receive(SYN), Receive(LastData(b)), End, Receive(LAST_ACK), Read(1)]
    ensures ConnectionLifecycles.IsRun(cfg, actions, states)
    ensures
      var c := states[5];
      c.Sound() && !c.finFirst && c.sender.finAcked && c.InboundEof() && c.Active()
  {
    hide Connection.SegmentReceived, Connection.EndInputStream;
    var c0 := NewConnection(cfg);
    var c1 := c0.SegmentReceived(SYN);
    SynArrives(cfg);
    var c2 := c1.SegmentReceived(LastData(b));
    LastDataArrives(cfg, c1, b);
    var c3 := c2.EndInputStream();
    InputEnds(cfg, c2, b);
    var c4 := c3.SegmentReceived(LAST_ACK);
    LastAckArrives(cfg, c3, b);
    var c5 := c4.(receiver := c4.receiver.Read(1));
    actions, states := [Receive(SYN), Receive(LastData(b)), End, Receive(LAST_ACK), Read(1)], [c0, c1, c2, c3, c4, c5];
    forall i | 0 <= i < 5 ensures ConnectionLifecycles.StepAt(actions, states, i) {
      assert i == 0 || i == 1 || i == 2 || i == 3 || i == 4;
    }
  }
}
