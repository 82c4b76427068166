/** What a connection puts out, and that it answers what it must. */
module ConnectionAnswers {
  import opened Types
  import opened WrappingIntegers
  import opened ByteStreams
  import opened StreamReassemblers
  import opened TcpSegments
  import opened TcpReceivers
  import opened TcpSenders
  import opened SenderLedgers
  import opened TcpConnections
  import opened ConnectionLifecycles

  // ----- a segment on its way out -----

  /** The segment tells how far `r` has got and how much it still takes, up to 65535. */
  ghost predicate Tells(seg: TcpSegment, r: Receiver) {
    var o := r.Output();
    && seg.header.win == Min(65535, o.nread + o.capacity - |o.accepted|)
    && (r.isn.Some? ==> seg.header.ack && seg.header.ackno == Wrap(r.AckAbsolute(), r.isn.value))
  }

  /** `seg` is `plain` with the acknowledgment and window of `r`, and in nothing else different. */
  ghost predicate Stamps(seg: TcpSegment, plain: TcpSegment, r: Receiver) {
    var h := seg.header;
    && Tells(seg, r)
    && seg == plain.(header := plain.header.(ack := h.ack, ackno := h.ackno, win := h.win))
    && (r.isn.None? ==> h.ack == plain.header.ack && h.ackno == plain.header.ackno)
  }

  /** `d` has put out `plain`, stamped by its receiver, after what `c` had, and holds nothing back. */
  ghost predicate PutsOut(c: Connection, d: Connection, plain: seq<TcpSegment>) {
    && d.sender.out == [] && |d.out| == |c.out| + |plain| && c.out <= d.out
    && forall k :: 0 <= k < |plain| ==> Stamps(d.out[|c.out| + k], plain[k], d.receiver)
  }

  /** A segment without any length at the next number of `s`, no flag set. */
  function EmptyAt(s: Sender): TcpSegment {
    TcpSegment(TcpHeader(0, 0, Wrap(s.next, s.isn), 0, 5, false, false, false, false, false, false, 0, 0, 0), [])
  }

  /** ... and one with the flag RST. */
  function ResetAt(s: Sender): TcpSegment {
    EmptyAt(s).(header := EmptyAt(s).header.(rst := true))
  }

  lemma StampStamps(r: Receiver, seg: TcpSegment)
    requires r.Sound()
    ensures Stamps(Stamp(r, seg), seg, r)
  {
    WindowExact(r);
    if r.isn.Some? {
      AcknoWraps(r);
    }
  }

  lemma FlushPutsOut(c: Connection)
    requires c.Sound()
    ensures PutsOut(c, c.Flush(), c.sender.out) && c.Flush().sender == c.sender.(out := [])
  {
    hide Stamp, Stamps;
    var d, n := c.Flush(), |c.out|;
    forall k | 0 <= k < |c.sender.out| ensures Stamps(d.out[n + k], c.sender.out[k], d.receiver) {
      assert d.out[n + k] == StampAll(c.receiver, c.sender.out)[k];
      StampStamps(c.receiver, c.sender.out[k]);
    }
  }

  // ----- the answer to a segment -----

  /** A segment without length just before what `r` expects. */
  ghost predicate Probes(seg: TcpSegment, r: Receiver) {
    && r.isn.Some? && seg.payload == [] && !seg.header.syn && !seg.header.fin
    && seg.header.seqno == Wrap(r.AckAbsolute() - 1, r.isn.value)
  }

  lemma KeepAliveProbes(c: Connection, seg: TcpSegment)
    ensures c.IsKeepAlive(seg) <==> Probes(seg, c.receiver)
  {
    if c.receiver.isn.Some? {
      AcknoWraps(c.receiver);
      WrapBefore(c.receiver.AckAbsolute(), c.receiver.isn.value);
    }
  }

  lemma WrapBefore(n: nat, isn: u32)
    requires n > 0
    ensures (Wrap(n, isn) - 1) % TWO_32 == Wrap(n - 1, isn) && Wrap(n - 1, isn) != Wrap(n, isn)
  {
    var x := (isn + n) % TWO_32;
    assert (isn + (n - 1)) % TWO_32 == if x == 0 then TWO_32 - 1 else x - 1;
  }

  /** The sender after the acknowledgment on a segment, and after `fill_window` if that is called. */
  function Acked(s: Sender, seg: TcpSegment): Sender {
    if seg.header.ack then s.AckReceived(seg.header.ackno, seg.header.win) else s
  }

  function Refilled(s: Sender, seg: TcpSegment): Sender
    requires s.stream.Valid()
  {
    if s.synAcked || seg.header.syn then s.FillWindow() else s
  }

  /** What a sender owes for a segment: what it has to send; and if that is nothing and the segment takes up
      sequence numbers, an empty segment. */
  function Owed(s: Sender, seg: TcpSegment): seq<TcpSegment> {
    if s.out == [] && (seg.payload != [] || seg.header.syn || seg.header.fin) then [EmptyAt(s)] else s.out
  }

  /** What a segment that is taken in does and what it is answered with. A probe gets an empty segment.
      Otherwise the window is filled, once the SYN is acknowledged or by a SYN; if that sends nothing and the
      segment takes up sequence numbers, it gets an empty segment; if it takes up none, nothing. */
  ghost predicate Answers(c: Connection, seg: TcpSegment, d: Connection)
    requires c.Valid()
  {
    var s := Acked(c.sender, seg);
    && d.receiver == c.receiver.SegmentReceived(seg) && s.stream.Valid()
    && var f := Refilled(s, seg);
       if Probes(seg, d.receiver) then d.sender == s.(out := []) && PutsOut(c, d, s.out + [EmptyAt(s)])
       else
         && d.sender == f.(out := [])
         && PutsOut(c, d, Owed(f, seg))
  }

  lemma DigestedHalves(c: Connection, seg: TcpSegment)
    requires c.Valid()
    ensures
      var e := c.Digest(seg);
      && e.sender == Acked(c.sender, seg) && e.receiver == c.receiver.SegmentReceived(seg) && e.out == c.out
      && e.sender.stream.Valid()
  {
    hide Sender.AckReceived, Receiver.SegmentReceived;
    AckKeepsStream(c.sender, seg.header.ackno, seg.header.win);
  }

  lemma AnswerPutsOut(e: Connection, seg: TcpSegment)
    requires e.Sound()
    ensures
      var d, s := e.Answer(seg), e.sender;
      && d.receiver == e.receiver && d.sender == s.(out := [])
      && PutsOut(e, d, Owed(s, seg))
  {
    hide Connection.Flush, PutsOut;
    AnswerSame(e, seg);
    if e.sender.out == [] && seg.LengthInSequenceSpace() >= 1 {
      assert e.sender.SendEmpty().out == [EmptyAt(e.sender)];
      FlushPutsOut(e.(sender := e.sender.SendEmpty()));
      SameOutPutsOut(e, e.(sender := e.sender.SendEmpty()), e.Answer(seg), [EmptyAt(e.sender)]);
    } else {
      FlushPutsOut(e);
    }
  }

  lemma SameOutPutsOut(c: Connection, e: Connection, d: Connection, plain: seq<TcpSegment>)
    requires e.out == c.out && PutsOut(e, d, plain)
    ensures PutsOut(c, d, plain)
  {
    hide Stamps;
  }

  lemma ReplyAnswers(e: Connection, seg: TcpSegment)
    requires e.Sound()
    ensures
      var d, s := e.Reply(seg), e.sender;
      && d.receiver == e.receiver
      && var f := Refilled(s, seg);
         if Probes(seg, e.receiver) then d.sender == s.(out := []) && PutsOut(e, d, s.out + [EmptyAt(s)])
         else
           && d.sender == f.(out := [])
           && PutsOut(e, d, Owed(f, seg))
  {
    hide Connection.Flush, Connection.Answer, Connection.IsKeepAlive, PutsOut, Sender.FillWindow, Probes;
    ReplySame(e, seg);
    KeepAliveProbes(e, seg);
    if e.IsKeepAlive(seg) {
      var e' := e.(sender := e.sender.SendEmpty());
      FlushPutsOut(e');
      SameOutPutsOut(e, e', e.Reply(seg), e.sender.out + [EmptyAt(e.sender)]);
    } else {
      var e' := e.Filled(seg);
      AnswerPutsOut(e', seg);
      SameOutPutsOut(e, e', e.Reply(seg), Owed(e'.sender, seg));
    }
  }

  lemma SegmentAnswered(c: Connection, seg: TcpSegment)
    requires c.Valid() && Digests(c, seg)
    ensures Answers(c, seg, c.SegmentReceived(seg))
  {
    hide Connection.Digest, Connection.Reply, Connection.SegmentReceived, PutsOut, Probes, Acked, Refilled, Digests;
    var c0 := c.(lastReceived := 0);
    DigestsExactly(c, seg);
    DigestedHalves(c0, seg);
    ReplyAnswers(c0.Digest(seg), seg);
    var d := c.SegmentReceived(seg);
    forall plain | PutsOut(c0.Digest(seg), d, plain) ensures PutsOut(c, d, plain) {
      SameOutPutsOut(c, c0.Digest(seg), d, plain);
    }
  }

  /** An acknowledgment without length at the expected number is not answered as such: with nothing to send,
      nothing goes out. */
  lemma AckUnanswered(c: Connection, seg: TcpSegment)
    requires c.Valid() && Digests(c, seg) && seg.payload == [] && !seg.header.syn && !seg.header.fin
    requires var r := c.receiver.SegmentReceived(seg);
             r.isn.Some? && seg.header.seqno == Wrap(r.AckAbsolute(), r.isn.value)
    requires Acked(c.sender, seg).stream.Valid() && Refilled(Acked(c.sender, seg), seg).out == []
    ensures c.SegmentReceived(seg).out == c.out
  {
    hide Connection.SegmentReceived, Acked, Refilled, Digests, Receiver.SegmentReceived;
    SegmentAnswered(c, seg);
    WrapBefore(c.receiver.SegmentReceived(seg).AckAbsolute(), c.receiver.SegmentReceived(seg).isn.value);
  }

  // ----- every other call -----

  function Prepared(c: Connection, a: Action): Sender
    requires c.Sound()
  {
    match a
    case Write(data) => c.sender.(stream := c.sender.stream.Write(data))
    case End => c.sender.(stream := c.sender.stream.EndInput())
    case _ => c.sender
  }

  lemma OutboundPutsOut(c: Connection, a: Action)
    requires c.Valid() && Enabled(c, a) && (a.Connect? || a.Write? || a.End?)
    ensures
      var d, f := AfterAction(c, a), Prepared(c, a).FillWindow();
      d.receiver == c.receiver && d.sender == f.(out := []) && PutsOut(c, d, f.out)
  {
    hide Connection.Flush, Sender.FillWindow, Stamps;
    OutboundSame(c, a);
    var s := Prepared(c, a);
    FilledSame(c, s);
    FlushPutsOut(c.(sender := s.FillWindow()));
  }

  /** A tick that gives up: one reset goes out, at the next number, and nothing else. */
  ghost predicate GivesUp(c: Connection, a: Action, d: Connection) {
    && a.Tick? && c.sender.retransmissions >= 8
    && d.reset && d.sender.out == [] && d.sender.queue == c.sender.queue && d.out == c.out + [ResetAt(c.sender)]
  }

  lemma TickPutsOut(c: Connection, ms: nat)
    requires c.Valid()
    ensures
      var d, s := c.Tick(ms), c.sender.Tick(ms);
      if c.sender.retransmissions >= 8 then GivesUp(c, Tick(ms), d)
      else d.receiver == c.receiver && d.sender == s.(out := []) && PutsOut(c, d, s.out)
  {
    hide Connection.Flush, Stamps, Sender.Tick;
    if c.sender.retransmissions < 8 {
      var d := c.Waited(ms);
      TickFlags(c.sender, ms);
      FlushPutsOut(d);
      FlushSame(d);
    }
  }

  // ----- nothing that may go out is held back -----

  /** The SYN is out; and once it is acknowledged, the window is full or everything written is out. */
  predicate Full(s: Sender) {
    s.next > 0 && (s.synAcked ==> s.inFlight >= s.window || AllOut(s))
  }

  lemma FilledFull(s: Sender)
    requires Ledger(s) && FirstFits(s)
    ensures Full(s.FillWindow()) && Full(s.FillWindow().(out := []))
  {
    if s.next == 0 {
      FirstFill(s);
      assert Burst(s)[0].header.syn;
    } else if s.synAcked {
      FillWindowFills(s);
    } else {
      FillNeverThrows(s);
      TilesOrder(s.queue, Oldest(s), s.next, s.stream.accepted, s.isn);
    }
  }

  /** After connecting, writing or ending the input. */
  lemma OutboundFull(c: Connection, a: Action)
    requires c.Valid() && Enabled(c, a) && (a.Connect? || a.Write? || a.End?)
    requires Ledger(Prepared(c, a)) && FirstFits(Prepared(c, a))
    ensures Full(AfterAction(c, a).sender)
  {
    hide AfterAction, Ledger, Sender.FillWindow, FirstFits, PutsOut, Full;
    OutboundPutsOut(c, a);
    FilledFull(Prepared(c, a));
  }

  /** After a segment that is taken in and is no probe: on an open connection, or by a SYN, the same; before
      that, no SYN is sent. */
  lemma ReceiveFull(c: Connection, seg: TcpSegment)
    requires c.Valid() && Digests(c, seg) && !Probes(seg, c.receiver.SegmentReceived(seg))
    requires var s := Acked(c.sender, seg); Ledger(s) && FirstFits(s)
    ensures
      var d, s := c.SegmentReceived(seg), Acked(c.sender, seg);
      if s.synAcked || seg.header.syn then Full(d.sender) else d.sender == s.(out := [])
  {
    hide Connection.SegmentReceived, Digests, Probes, Acked, Ledger, Sender.FillWindow, FirstFits, PutsOut, Full,
         Receiver.SegmentReceived;
    SegmentAnswered(c, seg);
    FilledFull(Acked(c.sender, seg));
  }

  lemma FillReadsOnly(s: Sender)
    requires s.stream.Valid()
    ensures
      var o, o' := s.stream, s.FillWindow().stream;
      o'.accepted == o.accepted && o'.ended == o.ended && o'.capacity == o.capacity && o'.plugged == o.plugged
  {
    hide Cut;
  }

  function Room(o: Stream): int {
    o.nread + o.capacity - |o.accepted|
  }

  /** Only a write adds to the outbound stream, the bytes that fit and in order; only ending the input ends it. */
  lemma OutboundStream(c: Connection, a: Action)
    requires c.Valid() && Enabled(c, a)
    ensures
      var o, o' := c.sender.stream, AfterAction(c, a).sender.stream;
      && o'.accepted == o.accepted + (if a.Write? then a.data[..Min(|a.data|, Room(o))] else [])
      && (o'.ended <==> o.ended || a.End?)
  {
    hide Connection.SegmentReceived, Connection.Tick, Sender.FillWindow, PutsOut, AfterAction, Prepared, Answers;
    match a
    case Receive(seg) => ReceiveStream(c, seg);
    case Tick(ms) => TickStream(c, ms);
    case Read(n) => ReadStream(c, n);
    case _ =>
      OutboundPutsOut(c, a);
      PreparedStream(c, a);
      FillReadsOnly(Prepared(c, a));
  }

  lemma PreparedStream(c: Connection, a: Action)
    requires c.Sound() && (a.Connect? || a.Write? || a.End?)
    ensures
      var o, o' := c.sender.stream, Prepared(c, a).stream;
      && o'.Valid()
      && o'.accepted == o.accepted + (if a.Write? then a.data[..Min(|a.data|, Room(o))] else [])
      && (o'.ended <==> o.ended || a.End?)
  {
    if a.Write? {
      WriteExact(c.sender.stream, a.data);
    }
  }

  lemma ReadStream(c: Connection, n: nat)
    requires c.Valid() && Enabled(c, Read(n))
    ensures AfterAction(c, Read(n)).sender == c.sender
  {
  }

  lemma TickStream(c: Connection, ms: nat)
    requires c.Valid()
    ensures
      var o, o' := c.sender.stream, AfterAction(c, Tick(ms)).sender.stream;
      o'.accepted == o.accepted && o'.ended == o.ended
  {
    hide Connection.Flush, Sender.Tick, PutsOut;
    TickFlags(c.sender, ms);
    if c.sender.retransmissions < 8 {
      TickPutsOut(c, ms);
    }
  }

  lemma ReceiveStream(c: Connection, seg: TcpSegment)
    requires c.Valid()
    ensures
      var o, o' := c.sender.stream, AfterAction(c, Receive(seg)).sender.stream;
      o'.accepted == o.accepted && o'.ended == o.ended
  {
    hide Connection.SegmentReceived, Connection.Digest, Connection.Reply, PutsOut, Probes, Digests, Sender.FillWindow,
         Sender.AckReceived, Receiver.SegmentReceived;
    DigestsExactly(c, seg);
    if Digests(c, seg) {
      SegmentAnswered(c, seg);
      AckKeepsStream(c.sender, seg.header.ackno, seg.header.win);
      FillReadsOnly(Acked(c.sender, seg));
    }
  }

  // ----- what the segments look like -----

  /** A segment as a sender makes it: number, SYN, FIN and data are its own, all else is as constructed. */
  predicate Plain(seg: TcpSegment) {
    var h := seg.header;
    h == TcpHeader(0, 0, h.seqno, 0, 5, false, false, false, false, h.syn, h.fin, 0, 0, 0)
  }

  /** ... and as a connection puts it out. */
  predicate Ordinary(seg: TcpSegment) {
    var h := seg.header;
    h == TcpHeader(0, 0, h.seqno, h.ackno, 5, false, h.ack, false, false, h.syn, h.fin, h.win, 0, 0)
  }

  ghost predicate AllPlain(segs: seq<TcpSegment>) {
    forall k :: 0 <= k < |segs| ==> Plain(segs[k])
  }

  ghost predicate SenderPlain(s: Sender) {
    AllPlain(s.out) && forall k :: 0 <= k < |s.queue| ==> Plain(s.queue[k].seg)
  }

  lemma {:induction false} CutPlain(isn: u32, next: nat, syn: bool, fin: bool, data: seq<byte>)
    ensures AllPlain(Cut(isn, next, syn, fin, data))
    decreases |data|
  {
    hide Wrap;
    if |data| > MAX_PAYLOAD_SIZE {
      var seg := TcpSegment(DEFAULT_HEADER.(seqno := Wrap(next, isn), syn := syn), data[..MAX_PAYLOAD_SIZE]);
      CutPlain(isn, next + seg.LengthInSequenceSpace(), syn, fin, data[MAX_PAYLOAD_SIZE..]);
    }
  }

  lemma FillPlain(s: Sender)
    requires s.stream.Valid() && SenderPlain(s)
    ensures SenderPlain(s.FillWindow())
  {
    hide Cut, Plain;
    CutPlain(s.isn, s.next, !s.synAcked, s.SendsFin(), s.stream.Buffered()[..s.Readable()]);
  }

  lemma {:induction false} PopPlain(s: Sender, ack: nat)
    requires SenderPlain(s)
    ensures SenderPlain(s.PopAcked(ack)) && |s.PopAcked(ack).queue| <= |s.queue|
    decreases |s.queue|
  {
    hide Unwrap, Plain;
    if s.FrontAcked(ack) {
      PopPlain(s.PopFront(), ack);
    }
  }

  lemma AckPlain(s: Sender, seg: TcpSegment)
    requires SenderPlain(s)
    ensures SenderPlain(Acked(s, seg))
  {
    hide Unwrap, Plain, Sender.PopAcked;
    PopPlain(s.SetWindow(seg.header.win), Unwrap(seg.header.ackno, s.isn, s.next));
  }

  lemma TickPlain(s: Sender, ms: nat)
    requires SenderPlain(s)
    ensures SenderPlain(s.Tick(ms))
  {
    hide Plain;
  }

  lemma StampsOrdinary(seg: TcpSegment, plain: TcpSegment, r: Receiver)
    requires Plain(plain) && Stamps(seg, plain, r)
    ensures Ordinary(seg)
  {
    hide Tells;
  }

  /** Whatever is called or arrives: what goes out is what the sender made, stamped with the current
      acknowledgment number and window and otherwise unchanged, except the reset of a tick that gives up. */
  ghost predicate Speaks(c: Connection, a: Action, d: Connection) {
    SenderPlain(d.sender) && (GivesUp(c, a, d) || exists plain :: AllPlain(plain) && PutsOut(c, d, plain))
  }

  lemma AnswersSpeaks(c: Connection, seg: TcpSegment, d: Connection)
    requires c.Valid() && SenderPlain(c.sender) && Answers(c, seg, d)
    ensures Speaks(c, Receive(seg), d)
  {
    hide Acked, Sender.FillWindow, PutsOut, Probes, Receiver.SegmentReceived;
    AckPlain(c.sender, seg);
    var s := Acked(c.sender, seg);
    FillPlain(s);
    var f := Refilled(s, seg);
    var plain := if Probes(seg, d.receiver) then s.out + [EmptyAt(s)]
                 else Owed(f, seg);
    assert AllPlain(plain) && PutsOut(c, d, plain);
  }

  lemma QuietSpeaks(c: Connection, a: Action, d: Connection)
    requires SenderPlain(c.sender) && c.sender.out == []
    requires d.sender.out == [] && d.sender.queue == c.sender.queue && d.out == c.out
    ensures Speaks(c, a, d)
  {
    assert AllPlain([]) && PutsOut(c, d, []);
  }

  lemma ReceiveSpeaks(c: Connection, seg: TcpSegment)
    requires c.Valid() && SenderPlain(c.sender) && c.sender.out == []
    ensures Speaks(c, Receive(seg), c.SegmentReceived(seg))
  {
    hide Connection.SegmentReceived, Connection.Digest, Connection.Reply, Answers, Speaks, Digests, SenderPlain;
    DigestsExactly(c, seg);
    if Digests(c, seg) {
      SegmentAnswered(c, seg);
      AnswersSpeaks(c, seg, c.SegmentReceived(seg));
    } else {
      QuietSpeaks(c, Receive(seg), c.SegmentReceived(seg));
    }
  }

  lemma TickSpeaks(c: Connection, ms: nat)
    requires c.Valid() && SenderPlain(c.sender)
    ensures Speaks(c, Tick(ms), c.Tick(ms))
  {
    hide Connection.Tick, Sender.Tick, PutsOut;
    TickPutsOut(c, ms);
    TickPlain(c.sender, ms);
  }

  lemma OutboundSpeaks(c: Connection, a: Action)
    requires c.Valid() && Enabled(c, a) && (a.Connect? || a.Write? || a.End?) && SenderPlain(c.sender)
    ensures Speaks(c, a, AfterAction(c, a))
  {
    hide Sender.FillWindow, AfterAction, PutsOut;
    OutboundPutsOut(c, a);
    FillPlain(Prepared(c, a));
  }

  lemma EverySegmentTells(c: Connection, a: Action)
    requires c.Valid() && Enabled(c, a) && c.sender.out == [] && SenderPlain(c.sender)
    ensures Speaks(c, a, AfterAction(c, a))
  {
    hide Speaks, Connection.SegmentReceived, Connection.Tick, Connection.Connect, Connection.Write,
         Connection.EndInputStream, SenderPlain;
    match a
    case Receive(seg) => ReceiveSpeaks(c, seg);
    case Tick(ms) => TickSpeaks(c, ms);
    case Read(n) => QuietSpeaks(c, a, AfterAction(c, a));
    case _ => OutboundSpeaks(c, a);
  }

  // ----- whole runs -----

  ghost predicate GivesUpAt(actions: seq<Action>, states: seq<Connection>, k: nat)
    requires |states| == |actions| + 1 && k < |actions|
  {
    GivesUp(states[k], actions[k], states[k + 1])
  }

  /** The segment at `j` went out in a step in which the connection gave up. */
  ghost predicate FromGivingUp(actions: seq<Action>, states: seq<Connection>, i: nat, j: nat)
    requires |states| == |actions| + 1 && i < |states|
  {
    exists k :: 0 <= k < i && GivesUpAt(actions, states, k) && |states[k].out| == j
  }

  ghost predicate OutFine(actions: seq<Action>, states: seq<Connection>, i: nat)
    requires |states| == |actions| + 1 && i < |states|
  {
    && SenderPlain(states[i].sender) && states[i].sender.out == []
    && forall j :: 0 <= j < |states[i].out| ==> Ordinary(states[i].out[j]) || FromGivingUp(actions, states, i, j)
  }

  lemma StepFine(actions: seq<Action>, states: seq<Connection>, i: nat)
    requires |states| == |actions| + 1 && i < |actions| && OutFine(actions, states, i)
    requires Speaks(states[i], actions[i], states[i + 1])
    ensures OutFine(actions, states, i + 1)
  {
    hide Ordinary, GivesUp, Stamps, SenderPlain;
    var c, d := states[i], states[i + 1];
    forall j | 0 <= j < |d.out| ensures Ordinary(d.out[j]) || FromGivingUp(actions, states, i + 1, j) {
      if j < |c.out| {
        OlderFine(actions, states, i, j);
      } else {
        NewerFine(actions, states, i, j);
      }
    }
    SpeaksEmpty(c, actions[i], d);
  }

  lemma SpeaksEmpty(c: Connection, a: Action, d: Connection)
    requires Speaks(c, a, d)
    ensures d.sender.out == [] && SenderPlain(d.sender)
  {
  }

  lemma OlderFine(actions: seq<Action>, states: seq<Connection>, i: nat, j: nat)
    requires |states| == |actions| + 1 && i < |actions| && OutFine(actions, states, i) && j < |states[i].out|
    requires Speaks(states[i], actions[i], states[i + 1])
    ensures j < |states[i + 1].out| && states[i + 1].out[j] == states[i].out[j]
    ensures Ordinary(states[i + 1].out[j]) || FromGivingUp(actions, states, i + 1, j)
  {
    hide Ordinary, Stamps, SenderPlain;
    if !Ordinary(states[i].out[j]) {
      var k :| 0 <= k < i && GivesUpAt(actions, states, k) && |states[k].out| == j;
    }
  }

  lemma NewerFine(actions: seq<Action>, states: seq<Connection>, i: nat, j: nat)
    requires |states| == |actions| + 1 && i < |actions| && |states[i].out| <= j < |states[i + 1].out|
    requires Speaks(states[i], actions[i], states[i + 1])
    ensures Ordinary(states[i + 1].out[j]) || FromGivingUp(actions, states, i + 1, j)
  {
    hide Ordinary, Stamps, SenderPlain;
    var c, d := states[i], states[i + 1];
    if GivesUp(c, actions[i], d) {
      assert GivesUpAt(actions, states, i);
    } else {
      var plain :| AllPlain(plain) && PutsOut(c, d, plain);
      StampsOrdinary(d.out[|c.out| + (j - |c.out|)], plain[j - |c.out|], d.receiver);
    }
  }

  /** In every state of every run of a connection, with any segments arriving: nothing waits in the sender,
      everything in flight and everything put out is an ordinary segment with no flag but SYN, FIN and ACK,
      except one reset for each tick that gave up. */
  lemma {:induction false} RunOrdinary(cfg: Config, actions: seq<Action>, states: seq<Connection>, i: nat)
    requires ConnectionLifecycles.IsRun(cfg, actions, states) && i < |states|
    ensures OutFine(actions, states, i)
  {
    hide AfterAction, Speaks, OutFine;
    if i == 0 {
      NewFine(cfg, actions, states);
    } else {
      RunOrdinary(cfg, actions, states, i - 1);
      assert ConnectionLifecycles.StepAt(actions, states, i - 1);
      FineSpeaks(actions, states, i - 1);
      StepFine(actions, states, i - 1);
    }
  }

  lemma NewFine(cfg: Config, actions: seq<Action>, states: seq<Connection>)
    requires |states| == |actions| + 1 && states[0] == NewConnection(cfg)
    ensures OutFine(actions, states, 0)
  {
  }

  lemma FineSpeaks(actions: seq<Action>, states: seq<Connection>, i: nat)
    requires |states| == |actions| + 1 && i < |actions| && OutFine(actions, states, i)
    requires ConnectionLifecycles.StepAt(actions, states, i)
    ensures Speaks(states[i], actions[i], states[i + 1])
  {
    hide AfterAction, Speaks, Ordinary, SenderPlain;
    EverySegmentTells(states[i], actions[i]);
  }
}
