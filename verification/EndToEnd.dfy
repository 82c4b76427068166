/** Two endpoints over a network that may lose, repeat, delay and reorder segments. */
module EndToEnd {
  import opened Types
  import opened WrappingIntegers
  import opened ByteStreams
  import opened BufferStrings
  import opened StreamReassemblers
  import opened TcpSegments
  import opened TcpReceivers
  import opened TcpSenders
  import opened SenderLedgers
  import opened Directions
  import opened TcpConnections

  // ----- one endpoint's standing towards the other -----

  /** The acknowledgment on a segment, if any, is one that `r` has been able to give. */
  ghost predicate AckFine(r: Receiver, seg: TcpSegment) {
    seg.header.ack ==> exists b: nat :: AckGiven(r, seg.header.ackno, b)
  }

  ghost predicate AllAcksFine(r: Receiver, segs: seq<TcpSegment>) {
    forall k :: 0 <= k < |segs| ==> AckFine(r, segs[k])
  }

  /** Sender `s`, whose endpoint has put out `out` and receives through `r`, is linked to receiver
      `peer`; all it put out was sent by it and carries acknowledgments `r` can stand for. */
  ghost predicate Tied(s: Sender, r: Receiver, out: seq<TcpSegment>, gap: nat, peer: Receiver) {
    && Linked(s, peer, gap)
    && AllSentBy(s, gap, s.out) && NoAcks(s.out)
    && AllSentBy(s, gap, out) && AllAcksFine(r, out)
  }

  lemma AllSentByCarries(s: Sender, s': Sender, gap: nat, segs: seq<TcpSegment>)
    requires Carries(s, s', gap) && AllSentBy(s, gap, segs)
    ensures AllSentBy(s', GapAfter(s, s', gap), segs)
  {
    hide Carries, SentBy;
    forall k | 0 <= k < |segs| ensures SentBy(s', GapAfter(s, s', gap), segs[k]) {
      CarriesKeepsSent(s, s', gap, segs[k]);
    }
  }

  lemma AllSentByExtends(s: Sender, s': Sender, gap: nat, segs: seq<TcpSegment>)
    requires Extends(s, s') && AllSentBy(s, gap, segs)
    ensures AllSentBy(s', gap, segs)
  {
    hide Extends, SentBy;
    forall k | 0 <= k < |segs| ensures SentBy(s', gap, segs[k]) {
      SentByAdvances(s, s', gap, segs[k]);
    }
  }

  /** The sender's own calls. */
  lemma CarriesTied(s: Sender, s': Sender, r: Receiver, out: seq<TcpSegment>, gap: nat, peer: Receiver)
    requires Tied(s, r, out, gap, peer) && Carries(s, s', gap)
    ensures Tied(s', r, out, GapAfter(s, s', gap), peer)
  {
    hide Linked, SentBy;
    var gap' := GapAfter(s, s', gap);
    CarriesKeepsLink(s, s', peer, gap);
    AllSentByCarries(s, s', gap, s.out);
    AllSentByCarries(s, s', gap, out);
    assert forall k :: 0 <= k < |s.out| ==> s'.out[k] == s.out[k];
    assert forall k :: |s.out| <= k < |s'.out| ==> s'.out[k] == s'.out[|s.out|..][k - |s.out|];
  }

  /** An acknowledgment the peer has given. */
  lemma AckTied(s: Sender, r: Receiver, out: seq<TcpSegment>, gap: nat, peer: Receiver, ackno: u32, win: u16)
    requires Tied(s, r, out, gap, peer) && AckNear(s, peer, ackno)
    ensures Tied(s.AckReceived(ackno, win), r, out, gap, peer) && s.next > 0
  {
    hide Linked, SentBy, Extends, Sender.AckReceived;
    AckKeepsLink(s, peer, gap, ackno, win);
    AllSentByExtends(s, s.AckReceived(ackno, win), gap, s.out);
    AllSentByExtends(s, s.AckReceived(ackno, win), gap, out);
  }

  /** The peer receives something this sender sent. */
  lemma PeerReceivesTied(s: Sender, r: Receiver, out: seq<TcpSegment>, gap: nat, peer: Receiver, seg: TcpSegment)
    requires Tied(s, r, out, gap, peer) && SentBy(s, gap, seg) && !LateSyn(peer, seg)
    requires peer.isn.Some? ==> Near(s, gap, seg, peer.reassembler.top)
    ensures peer.Valid() && Tied(s, r, out, gap, peer.SegmentReceived(seg))
  {
    hide Linked, SentBy, Receiver.SegmentReceived;
    DeliverKeeps(s, peer, gap, seg);
  }

  /** `r'` can stand for every acknowledgment that `r` can. */
  ghost predicate Covers(r: Receiver, r': Receiver) {
    r.isn.Some? ==> r'.isn == r.isn && r.AckAbsolute() <= r'.AckAbsolute()
  }

  lemma OwnReceiverTied(s: Sender, r: Receiver, r': Receiver, out: seq<TcpSegment>, gap: nat, peer: Receiver)
    requires Tied(s, r, out, gap, peer) && Covers(r, r')
    ensures Tied(s, r', out, gap, peer)
  {
    hide Linked, SentBy;
    forall k | 0 <= k < |out| && out[k].header.ack ensures AckFine(r', out[k]) {
      assert AckFine(r, out[k]);
      var b: nat :| AckGiven(r, out[k].header.ackno, b);
      assert AckGiven(r', out[k].header.ackno, b);
    }
  }

  lemma ReceiveCovers(r: Receiver, seg: TcpSegment)
    requires r.Valid()
    ensures Covers(r, r.SegmentReceived(seg))
  {
    hide Receiver.SegmentReceived;
    AckNeverFalls(r, seg);
  }

  /** Flushing stamps acknowledgment and window on segments and changes nothing else of them. */
  lemma StampFine(s: Sender, gap: nat, r: Receiver, seg: TcpSegment)
    requires r.Sound() && SentBy(s, gap, seg) && !seg.header.ack
    ensures SentBy(s, gap, Stamp(r, seg)) && AckFine(r, Stamp(r, seg))
  {
    var a: nat :| SentAt(s, gap, seg, a);
    assert SentAt(s, gap, Stamp(r, seg), a);
    if r.isn.Some? {
      AcknoWraps(r);
      assert AckGiven(r, Stamp(r, seg).header.ackno, r.AckAbsolute());
    }
  }

  lemma LinkedIgnoresOut(s: Sender, r: Receiver, gap: nat)
    requires Linked(s, r, gap)
    ensures Linked(s.(out := []), r, gap) && Extends(s, s.(out := []))
  {
    hide Faithful, Tape;
  }

  lemma FlushTied(s: Sender, r: Receiver, out: seq<TcpSegment>, gap: nat, peer: Receiver)
    requires Tied(s, r, out, gap, peer) && r.Sound()
    ensures Tied(s.(out := []), r, out + StampAll(r, s.out), gap, peer)
  {
    hide Linked, SentBy, AckFine, Stamp, Extends;
    var s', stamped := s.(out := []), StampAll(r, s.out);
    LinkedIgnoresOut(s, peer, gap);
    forall k | 0 <= k < |stamped| ensures SentBy(s, gap, stamped[k]) && AckFine(r, stamped[k]) {
      StampFine(s, gap, r, s.out[k]);
    }
    assert AllSentBy(s, gap, out + stamped) && AllAcksFine(r, out + stamped);
    AllSentByExtends(s, s', gap, out + stamped);
  }

  lemma LinkedIgnoresError(s: Sender, r: Receiver, gap: nat)
    requires Linked(s, r, gap)
    ensures Linked(s.(stream := s.stream.SetError()), r, gap) && Linked(s, r.SetError(), gap)
  {
    hide Tape, Agrees, ReadsFrom;
  }

  lemma ErrorTied(s: Sender, r: Receiver, out: seq<TcpSegment>, gap: nat, peer: Receiver)
    requires Tied(s, r, out, gap, peer)
    ensures Tied(s.(stream := s.stream.SetError()), r.SetError(), out, gap, peer)
    ensures Tied(s, r, out, gap, peer.SetError())
  {
    hide SentBy, AckFine, Linked;
    var s' := s.(stream := s.stream.SetError());
    LinkedIgnoresError(s, peer, gap);
    AllSentByExtends(s, s', gap, s.out);
    AllSentByExtends(s, s', gap, out);
    OwnReceiverTied(s, r, r.SetError(), out, gap, peer);
  }

  lemma ResetTied(s: Sender, r: Receiver, out: seq<TcpSegment>, gap: nat, peer: Receiver, seg: TcpSegment)
    requires Tied(s, r, out, gap, peer)
    requires seg == TcpSegment(DEFAULT_HEADER.(seqno := Wrap(s.next, s.isn), rst := true), [])
    ensures Tied(s.(out := []), r, out + [seg], gap, peer)
  {
    hide Linked;
    LinkedIgnoresOut(s, peer, gap);
    assert SentAt(s, gap, seg, s.next);
    assert AckFine(r, seg) by { assert !seg.header.ack; }
    assert AllSentBy(s, gap, out + [seg]);
    AllSentByExtends(s, s.(out := []), gap, out + [seg]);
  }

  // ----- the system -----

  /** A connection, with the number of bytes its SYN carried. Its `out` is kept as the list of all
      segments it ever handed to the network. */
  datatype Endpoint = Endpoint(conn: Connection, gap: nat)

  /** What may happen at `x` when the other end is `y`: any segment `y` ever sent may arrive, again and
      again, in any order. */
  ghost predicate Possible(x: Endpoint, e: Action, y: Endpoint) {
    match e
    case Write(data) => MayWrite(x.conn.sender, data)
    case Receive(seg) => seg in y.conn.out
    case Read(n) => x.conn.Sound() && n <= x.conn.receiver.Output().BufferSize()
    case _ => true
  }

  /** No SYN without data arrives late, and nothing arrives 2^31 numbers out of place. */
  ghost predicate Timely(x: Endpoint, e: Action, y: Endpoint) {
    e.Receive? ==>
      && !LateSyn(x.conn.receiver, e.seg)
      && (x.conn.receiver.isn.Some? ==> Near(y.conn.sender, y.gap, e.seg, x.conn.receiver.reassembler.top))
      && (e.seg.header.ack ==> AckNear(x.conn.sender, y.conn.receiver, e.seg.header.ackno))
  }

  /** Both directions, between `x` and `y`, and nothing waiting inside `x`. */
  ghost predicate Joined(x: Connection, gx: nat, y: Connection, gy: nat) {
    && Tied(x.sender, x.receiver, x.out, gx, y.receiver)
    && Tied(y.sender, y.receiver, y.out, gy, x.receiver)
    && x.Valid() && y.Valid()
  }

  lemma JoinedSymmetric(x: Connection, gx: nat, y: Connection, gy: nat)
    ensures Joined(x, gx, y, gy) == Joined(y, gy, x, gx)
  {
  }

  lemma TiedValid(s: Sender, r: Receiver, out: seq<TcpSegment>, gap: nat, peer: Receiver)
    requires Tied(s, r, out, gap, peer)
    ensures s.stream.Valid() && peer.Valid()
  {
  }

  // ----- every event keeps both directions -----

  lemma CarriesJoined(x: Connection, gx: nat, y: Connection, gy: nat, s': Sender)
    requires Joined(x, gx, y, gy) && Carries(x.sender, s', gx)
    ensures Joined(x.(sender := s'), GapAfter(x.sender, s', gx), y, gy)
  {
    hide Tied, Carries;
    CarriesTied(x.sender, s', x.receiver, x.out, gx, y.receiver);
    TiedValid(s', x.receiver, x.out, GapAfter(x.sender, s', gx), y.receiver);
  }

  lemma FlushJoined(x: Connection, gx: nat, y: Connection, gy: nat)
    requires Joined(x, gx, y, gy)
    ensures Joined(x.Flush(), gx, y, gy)
  {
    hide Tied;
    FlushTied(x.sender, x.receiver, x.out, gx, y.receiver);
  }

  lemma FillJoined(x: Connection, gx: nat, y: Connection, gy: nat)
    requires Joined(x, gx, y, gy) && x.sender.FillWindow().next < TWO_64
    ensures Joined(x.(sender := x.sender.FillWindow()), GapAfter(x.sender, x.sender.FillWindow(), gx), y, gy)
  {
    hide Carries, Sender.FillWindow;
    FillCarries(x.sender, gx);
    CarriesJoined(x, gx, y, gy, x.sender.FillWindow());
  }

  lemma ConnectJoined(x: Connection, gx: nat, y: Connection, gy: nat)
    requires Joined(x, gx, y, gy) && x.Connect().sender.next < TWO_64
    ensures Joined(x.Connect(), GapAfter(x.sender, x.Connect().sender, gx), y, gy)
  {
    hide Tied, Sender.FillWindow;
    FillJoined(x, gx, y, gy);
    FlushJoined(x.(sender := x.sender.FillWindow()), GapAfter(x.sender, x.sender.FillWindow(), gx), y, gy);
  }

  lemma WriteJoined(x: Connection, gx: nat, y: Connection, gy: nat, data: seq<byte>)
    requires Joined(x, gx, y, gy) && MayWrite(x.sender, data) && x.Write(data).sender.next < TWO_64
    ensures Joined(x.Write(data), GapAfter(x.sender, x.Write(data).sender, gx), y, gy)
  {
    hide Carries, Sender.FillWindow;
    WriteCarries(x.sender, gx, data);
    var w := Written(x.sender, data);
    CarriesJoined(x, gx, y, gy, w);
    ConnectJoined(x.(sender := w), GapAfter(x.sender, w, gx), y, gy);
  }

  lemma EndJoined(x: Connection, gx: nat, y: Connection, gy: nat)
    requires Joined(x, gx, y, gy) && x.EndInputStream().sender.next < TWO_64
    ensures Joined(x.EndInputStream(), GapAfter(x.sender, x.EndInputStream().sender, gx), y, gy)
  {
    hide Carries, Sender.FillWindow;
    EndCarries(x.sender, gx);
    var w := Ended(x.sender);
    CarriesJoined(x, gx, y, gy, w);
    ConnectJoined(x.(sender := w), GapAfter(x.sender, w, gx), y, gy);
  }

  lemma SetResetJoined(x: Connection, gx: nat, y: Connection, gy: nat)
    requires Joined(x, gx, y, gy)
    ensures Joined(x.SetReset(), gx, y, gy)
  {
    hide Tied;
    ErrorTied(x.sender, x.receiver, x.out, gx, y.receiver);
    ErrorTied(y.sender, y.receiver, y.out, gy, x.receiver);
  }

  lemma TickJoined(x: Connection, gx: nat, y: Connection, gy: nat, ms: nat)
    requires Joined(x, gx, y, gy)
    ensures Joined(x.Tick(ms), GapAfter(x.sender, x.Tick(ms).sender, gx), y, gy)
  {
    hide Carries;
    if x.sender.retransmissions >= MAX_RETX_ATTEMPTS {
      var seg := TcpSegment(DEFAULT_HEADER.(seqno := Wrap(x.sender.next, x.sender.isn), rst := true), []);
      ResetTied(x.sender, x.receiver, x.out, gx, y.receiver, seg);
      SetResetJoined(x.(out := x.out + [seg], sender := x.sender.(out := [])), gx, y, gy);
    } else {
      TickCarries(x.sender, gx, ms);
      CarriesJoined(x, gx, y, gy, x.sender.Tick(ms));
      FlushJoined(x.(sender := x.sender.Tick(ms)), GapAfter(x.sender, x.sender.Tick(ms), gx), y, gy);
    }
  }

  lemma ReadJoined(x: Connection, gx: nat, y: Connection, gy: nat, n: nat)
    requires Joined(x, gx, y, gy) && n <= x.receiver.Output().BufferSize()
    ensures Joined(x.(receiver := x.receiver.Read(n)), gx, y, gy)
  {
    hide Linked, SentBy, AckFine;
    OwnReceiverTied(x.sender, x.receiver, x.receiver.Read(n), x.out, gx, y.receiver);
    ReadKeepsLink(y.sender, x.receiver, gy, n);
    TiedValid(y.sender, y.receiver, y.out, gy, x.receiver.Read(n));
  }

  /** A segment from the other end that arrives in time. */
  ghost predicate Arriving(x: Connection, seg: TcpSegment, y: Connection, gy: nat) {
    && SentBy(y.sender, gy, seg) && !LateSyn(x.receiver, seg)
    && (x.receiver.isn.Some? ==> Near(y.sender, gy, seg, x.receiver.reassembler.top))
    && (seg.header.ack ==> AckNear(x.sender, y.receiver, seg.header.ackno))
  }

  lemma DigestJoined(x: Connection, gx: nat, y: Connection, gy: nat, seg: TcpSegment)
    requires Joined(x, gx, y, gy) && Arriving(x, seg, y, gy)
    ensures Joined(x.Digest(seg), gx, y, gy)
    ensures seg.header.ack ==> x.sender.next > 0
    ensures x.Digest(seg).sender.next == x.sender.next && x.Digest(seg).sender.stream == x.sender.stream
  {
    hide Tied, SentBy, Receiver.SegmentReceived, Sender.AckReceived, Near, AckNear;
    var s, r := x.Digest(seg).sender, x.Digest(seg).receiver;
    if seg.header.ack {
      AckTied(x.sender, x.receiver, x.out, gx, y.receiver, seg.header.ackno, seg.header.win);
      AckFrameOf(x.sender, seg.header.ackno, seg.header.win);
    }
    ReceiveCovers(x.receiver, seg);
    OwnReceiverTied(s, x.receiver, r, x.out, gx, y.receiver);
    PeerReceivesTied(y.sender, y.receiver, y.out, gy, x.receiver, seg);
    TiedValid(s, r, x.out, gx, y.receiver);
    TiedValid(y.sender, y.receiver, y.out, gy, r);
  }

  lemma AckFrameOf(s: Sender, ackno: u32, win: u16)
    ensures var s' := s.AckReceived(ackno, win); s'.next == s.next && s'.stream == s.stream
  {
    hide Unwrap, Sender.PopAcked;
    PopAckedFrame(s.SetWindow(win), Unwrap(ackno, s.isn, s.next));
  }

  lemma SendEmptyJoined(x: Connection, gx: nat, y: Connection, gy: nat)
    requires Joined(x, gx, y, gy)
    ensures Joined(x.(sender := x.sender.SendEmpty()), gx, y, gy)
  {
    hide Carries;
    SendEmptyCarries(x.sender, gx);
    CarriesJoined(x, gx, y, gy, x.sender.SendEmpty());
  }

  lemma FilledJoined(x: Connection, gx: nat, y: Connection, gy: nat, seg: TcpSegment)
    requires Joined(x, gx, y, gy) && x.Filled(seg).sender.next < TWO_64
    ensures Joined(x.Filled(seg), GapAfter(x.sender, x.Filled(seg).sender, gx), y, gy)
  {
    hide Tied, Sender.FillWindow;
    GapKnown(x, gx, y, gy);
    if x.sender.synAcked || seg.header.syn {
      FillJoined(x, gx, y, gy);
    }
  }

  lemma AnswerJoined(x: Connection, gx: nat, y: Connection, gy: nat, seg: TcpSegment)
    requires Joined(x, gx, y, gy)
    ensures Joined(x.Answer(seg), gx, y, gy)
  {
    hide Tied;
    SendEmptyJoined(x, gx, y, gy);
    FlushJoined(x.(sender := x.sender.SendEmpty()), gx, y, gy);
    FlushJoined(x, gx, y, gy);
  }

  lemma ReplyJoined(x: Connection, gx: nat, y: Connection, gy: nat, seg: TcpSegment)
    requires Joined(x, gx, y, gy) && x.Reply(seg).sender.next < TWO_64
    ensures Joined(x.Reply(seg), GapAfter(x.sender, x.Reply(seg).sender, gx), y, gy)
  {
    hide Tied, Connection.Filled, Connection.IsKeepAlive, Sender.FillWindow;
    GapKnown(x, gx, y, gy);
    if x.IsKeepAlive(seg) {
      SendEmptyJoined(x, gx, y, gy);
      FlushJoined(x.(sender := x.sender.SendEmpty()), gx, y, gy);
    } else {
      FilledJoined(x, gx, y, gy, seg);
      AnswerJoined(x.Filled(seg), GapAfter(x.sender, x.Filled(seg).sender, gx), y, gy, seg);
    }
  }

  lemma GapKnown(x: Connection, gx: nat, y: Connection, gy: nat)
    requires Joined(x, gx, y, gy)
    ensures x.sender.next == 0 ==> gx == 0 == x.sender.stream.nread
  {
  }

  lemma ReceiveJoined(x: Connection, gx: nat, y: Connection, gy: nat, seg: TcpSegment)
    requires Joined(x, gx, y, gy) && Arriving(x, seg, y, gy) && x.SegmentReceived(seg).sender.next < TWO_64
    ensures Joined(x.SegmentReceived(seg), GapAfter(x.sender, x.SegmentReceived(seg).sender, gx), y, gy)
  {
    hide Tied, Connection.Digest, Connection.Reply;
    GapKnown(x, gx, y, gy);
    var c := x.(lastReceived := 0);
    if seg.header.rst {
      SetResetJoined(c, gx, y, gy);
    } else if c.Active() && !c.Ignores(seg) {
      DigestJoined(c, gx, y, gy, seg);
      ReplyJoined(c.Digest(seg), gx, y, gy, seg);
    }
  }

  /** Any event that may happen and is timely keeps both directions. */
  lemma ActionJoined(x: Endpoint, e: Action, y: Endpoint)
    requires Joined(x.conn, x.gap, y.conn, y.gap) && Possible(x, e, y) && Timely(x, e, y)
    requires AfterAction(x.conn, e).sender.next < TWO_64
    ensures Joined(AfterAction(x.conn, e), GapAfter(x.conn.sender, AfterAction(x.conn, e).sender, x.gap), y.conn, y.gap)
  {
    hide Tied, SentBy, Near, AckNear, LateSyn;
    hide Connection.Connect, Connection.Write, Connection.EndInputStream, Connection.Tick, Connection.SegmentReceived;
    match e
    case Connect => ConnectJoined(x.conn, x.gap, y.conn, y.gap);
    case Write(data) => WriteJoined(x.conn, x.gap, y.conn, y.gap, data);
    case End => EndJoined(x.conn, x.gap, y.conn, y.gap);
    case Tick(ms) => TickJoined(x.conn, x.gap, y.conn, y.gap, ms);
    case Receive(seg) =>
      PutOutFine(y.conn, y.gap, x.conn, x.gap, seg);
      ReceiveJoined(x.conn, x.gap, y.conn, y.gap, seg);
    case Read(n) =>
      GapKnown(x.conn, x.gap, y.conn, y.gap);
      ReadJoined(x.conn, x.gap, y.conn, y.gap, n);
  }

  lemma PutOutFine(x: Connection, gx: nat, y: Connection, gy: nat, seg: TcpSegment)
    requires Joined(x, gx, y, gy) && seg in x.out
    ensures SentBy(x.sender, gx, seg) && AckFine(x.receiver, seg)
  {
    hide Linked, SentBy, AckFine;
    var k :| 0 <= k < |x.out| && x.out[k] == seg;
  }

  // ----- whole runs -----

  datatype System = System(a: Endpoint, b: Endpoint)

  datatype Side = AtA | AtB

  /** `x` does `e` while `y` does nothing. */
  ghost predicate Does(x: Endpoint, e: Action, y: Endpoint, x': Endpoint, y': Endpoint) {
    && Possible(x, e, y) && y' == y && x.conn.Valid()
    && x'.conn == AfterAction(x.conn, e) && x'.gap == GapAfter(x.conn.sender, x'.conn.sender, x.gap)
    && x'.conn.sender.next < TWO_64
  }

  ghost predicate StepAt(sides: seq<Side>, events: seq<Action>, states: seq<System>, i: nat)
    requires |states| == |events| + 1 == |sides| + 1 && i < |events|
  {
    match sides[i]
    case AtA => Does(states[i].a, events[i], states[i].b, states[i + 1].a, states[i + 1].b)
    case AtB => Does(states[i].b, events[i], states[i].a, states[i + 1].b, states[i + 1].a)
  }

  ghost predicate TimelyAt(sides: seq<Side>, events: seq<Action>, states: seq<System>, i: nat)
    requires |states| == |events| + 1 == |sides| + 1 && i < |events|
  {
    match sides[i]
    case AtA => Timely(states[i].a, events[i], states[i].b)
    case AtB => Timely(states[i].b, events[i], states[i].a)
  }

  ghost predicate IsRun(cfgA: Config, cfgB: Config, sides: seq<Side>, events: seq<Action>, states: seq<System>) {
    && |states| == |events| + 1 == |sides| + 1
    && states[0] == System(Endpoint(NewConnection(cfgA), 0), Endpoint(NewConnection(cfgB), 0))
    && forall i :: 0 <= i < |events| ==> StepAt(sides, events, states, i)
  }

  lemma NewJoined(cfgA: Config, cfgB: Config)
    ensures Joined(NewConnection(cfgA), 0, NewConnection(cfgB), 0)
  {
  }

  lemma {:induction false} RunJoined(cfgA: Config, cfgB: Config, sides: seq<Side>, events: seq<Action>,
                                     states: seq<System>, i: nat)
    requires IsRun(cfgA, cfgB, sides, events, states) && i < |states|
    requires forall k :: 0 <= k < i ==> TimelyAt(sides, events, states, k)
    ensures Joined(states[i].a.conn, states[i].a.gap, states[i].b.conn, states[i].b.gap)
  {
    hide Joined, Timely, Possible, AfterAction;
    if i == 0 {
      NewJoined(cfgA, cfgB);
    } else {
      RunJoined(cfgA, cfgB, sides, events, states, i - 1);
      assert StepAt(sides, events, states, i - 1) && TimelyAt(sides, events, states, i - 1);
      var a, b := states[i - 1].a, states[i - 1].b;
      match sides[i - 1]
      case AtA => ActionJoined(a, events[i - 1], b);
      case AtB =>
        JoinedSymmetric(a.conn, a.gap, b.conn, b.gap);
        ActionJoined(b, events[i - 1], a);
        JoinedSymmetric(states[i].b.conn, states[i].b.gap, a.conn, a.gap);
    }
  }

  /** What holds from `x` to `y`: bytes received are a prefix of bytes written; the oldest number not
      acknowledged, the acknowledgment number and the next number come in this order; and once the
      FIN is acknowledged everything written has been received and the stream has ended. */
  ghost predicate SafeTowards(x: Connection, y: Connection) {
    && y.receiver.Output().accepted <= x.sender.stream.accepted
    && Oldest(x.sender) <= y.receiver.AckAbsolute() <= x.sender.next
    && (x.sender.finAcked ==> y.receiver.Output().accepted == x.sender.stream.accepted && y.receiver.Output().ended)
  }

  lemma JoinedSafe(x: Connection, gx: nat, y: Connection, gy: nat)
    requires Joined(x, gx, y, gy)
    ensures SafeTowards(x, y)
  {
    hide Linked;
    LinkedSafe(x.sender, y.receiver, gx);
    if x.sender.finAcked {
      LinkedComplete(x.sender, y.receiver, gx);
    }
  }

  /** End-to-end safety, in both directions, in every state of every timely run. */
  lemma EndToEndSafety(cfgA: Config, cfgB: Config, sides: seq<Side>, events: seq<Action>, states: seq<System>, i: nat)
    requires IsRun(cfgA, cfgB, sides, events, states) && i < |states|
    requires forall k :: 0 <= k < i ==> TimelyAt(sides, events, states, k)
    ensures SafeTowards(states[i].a.conn, states[i].b.conn) && SafeTowards(states[i].b.conn, states[i].a.conn)
  {
    hide Joined, IsRun, TimelyAt, SafeTowards;
    var a, b := states[i].a, states[i].b;
    RunJoined(cfgA, cfgB, sides, events, states, i);
    JoinedSymmetric(a.conn, a.gap, b.conn, b.gap);
    JoinedSafe(a.conn, a.gap, b.conn, b.gap);
    JoinedSafe(b.conn, b.gap, a.conn, a.gap);
  }

  /** What makes the call behind `e` throw. */
  predicate Throws(c: Connection, e: Action)
    requires c.Valid()
  {
    match e
    case Receive(seg) => c.ReceiveThrows(seg)
    case Tick(_) => false
    case Read(_) => false
    case _ => c.sender.FillThrows()
  }

  lemma DigestNeverThrows(x: Connection, gx: nat, y: Connection, gy: nat, seg: TcpSegment)
    requires Joined(x, gx, y, gy) && Arriving(x, seg, y, gy)
    ensures !x.ReceiveThrows(seg)
  {
    hide Connection.Digest, Tied, Arriving, Sender.FillThrows;
    DigestJoined(x, gx, y, gy, seg);
    TiedLedger(x.Digest(seg).sender, x.Digest(seg).receiver, x.Digest(seg).out, gx, y.receiver);
    FillNeverThrows(x.Digest(seg).sender);
  }

  lemma TiedLedger(s: Sender, r: Receiver, out: seq<TcpSegment>, gap: nat, peer: Receiver)
    requires Tied(s, r, out, gap, peer)
    ensures Ledger(s)
  {
  }

  lemma ActionNeverThrows(x: Endpoint, e: Action, y: Endpoint)
    requires Joined(x.conn, x.gap, y.conn, y.gap) && Possible(x, e, y) && Timely(x, e, y)
    ensures !Throws(x.conn, e)
  {
    hide Tied, Connection.ReceiveThrows, Sender.FillThrows, LateSyn, Near, AckNear;
    TiedLedger(x.conn.sender, x.conn.receiver, x.conn.out, x.gap, y.conn.receiver);
    FillNeverThrows(x.conn.sender);
    if e.Receive? {
      PutOutFine(y.conn, y.gap, x.conn, x.gap, e.seg);
      DigestNeverThrows(x.conn, x.gap, y.conn, y.gap, e.seg);
    }
  }

  /** No call in a timely run throws. */
  lemma NothingThrows(cfgA: Config, cfgB: Config, sides: seq<Side>, events: seq<Action>, states: seq<System>, i: nat)
    requires IsRun(cfgA, cfgB, sides, events, states) && i < |events|
    requires forall k :: 0 <= k <= i ==> TimelyAt(sides, events, states, k)
    ensures
      var c := if sides[i] == AtA then states[i].a.conn else states[i].b.conn;
      c.Valid() && !Throws(c, events[i])
  {
    hide Joined, Possible, Timely, Throws;
    RunJoined(cfgA, cfgB, sides, events, states, i);
    assert StepAt(sides, events, states, i) && TimelyAt(sides, events, states, i);
    var s := states[i];
    match sides[i]
    case AtA => ActionNeverThrows(s.a, events[i], s.b);
    case AtB =>
      JoinedSymmetric(s.a.conn, s.a.gap, s.b.conn, s.b.gap);
      ActionNeverThrows(s.b, events[i], s.a);
  }

  // ----- short streams are always near -----

  ghost predicate Short(s: Sender) {
    |s.stream.accepted| + 2 < TWO_31
  }

  /** As long as fewer than 2^31 numbers are in use, nothing is out of place: only a late SYN is not
      timely. */
  lemma ShortTimely(x: Endpoint, e: Action, y: Endpoint)
    requires Joined(x.conn, x.gap, y.conn, y.gap) && Possible(x, e, y)
    requires Short(x.conn.sender) && Short(y.conn.sender)
    ensures Timely(x, e, y) <==> !(e.Receive? && LateSyn(x.conn.receiver, e.seg))
  {
    if e.Receive? {
      JoinedSymmetric(x.conn, x.gap, y.conn, y.gap);
      PutOutFine(y.conn, y.gap, x.conn, x.gap, e.seg);
      if x.conn.receiver.isn.Some? {
        ShortNear(y.conn.sender, x.conn.receiver, y.gap, e.seg);
      }
      if e.seg.header.ack {
        ShortAckNear(x.conn.sender, y.conn.receiver, x.gap, e.seg);
      }
    }
  }

  lemma ShortNear(s: Sender, r: Receiver, gap: nat, seg: TcpSegment)
    requires Linked(s, r, gap) && Short(s) && r.isn.Some? && SentBy(s, gap, seg)
    ensures Near(s, gap, seg, r.reassembler.top)
  {
    hide Tape, Tiles;
    var a: nat :| SentAt(s, gap, seg, a);
    assert a <= s.next && r.reassembler.top <= s.stream.nread + 1;
  }

  lemma ShortAckNear(s: Sender, r: Receiver, gap: nat, seg: TcpSegment)
    requires Linked(s, r, gap) && Short(s) && seg.header.ack && AckFine(r, seg)
    ensures AckNear(s, r, seg.header.ackno)
  {
    LinkedSafe(s, r, gap);
    var b: nat :| AckGiven(r, seg.header.ackno, b);
    assert Distance(b, s.next) < TWO_31;
  }

  ghost predicate LateSynAt(sides: seq<Side>, events: seq<Action>, states: seq<System>, i: nat)
    requires |states| == |events| + 1 == |sides| + 1 && i < |events|
  {
    events[i].Receive? && match sides[i]
      case AtA => LateSyn(states[i].a.conn.receiver, events[i].seg)
      case AtB => LateSyn(states[i].b.conn.receiver, events[i].seg)
  }

  ghost predicate ShortAt(states: seq<System>, i: nat)
    requires i < |states|
  {
    Short(states[i].a.conn.sender) && Short(states[i].b.conn.sender)
  }

  lemma {:induction false} ShortRunTimely(cfgA: Config, cfgB: Config, sides: seq<Side>, events: seq<Action>,
                                          states: seq<System>, i: nat)
    requires IsRun(cfgA, cfgB, sides, events, states) && i < |states|
    requires forall k :: 0 <= k < i ==> ShortAt(states, k) && !LateSynAt(sides, events, states, k)
    ensures forall k :: 0 <= k < i ==> TimelyAt(sides, events, states, k)
  {
    hide Joined, Timely, Possible, LateSyn, AfterAction, Short;
    if i > 0 {
      ShortRunTimely(cfgA, cfgB, sides, events, states, i - 1);
      RunJoined(cfgA, cfgB, sides, events, states, i - 1);
      var a, b := states[i - 1].a, states[i - 1].b;
      assert StepAt(sides, events, states, i - 1) && ShortAt(states, i - 1) && !LateSynAt(sides, events, states, i - 1);
      JoinedSymmetric(a.conn, a.gap, b.conn, b.gap);
      match sides[i - 1] {
        case AtA => ShortTimely(a, events[i - 1], b);
        case AtB => ShortTimely(b, events[i - 1], a);
      }
      assert TimelyAt(sides, events, states, i - 1);
    }
  }

  /** End-to-end safety for streams shorter than 2^31 bytes: whatever the network loses, repeats or
      reorders, as long as it brings no SYN without data after the first byte. */
  lemma ShortStreamSafety(cfgA: Config, cfgB: Config, sides: seq<Side>, events: seq<Action>, states: seq<System>,
                          i: nat)
    requires IsRun(cfgA, cfgB, sides, events, states) && i < |states|
    requires forall k :: 0 <= k < i ==> ShortAt(states, k) && !LateSynAt(sides, events, states, k)
    ensures SafeTowards(states[i].a.conn, states[i].b.conn) && SafeTowards(states[i].b.conn, states[i].a.conn)
  {
    hide IsRun, TimelyAt, SafeTowards;
    ShortRunTimely(cfgA, cfgB, sides, events, states, i);
    EndToEndSafety(cfgA, cfgB, sides, events, states, i);
  }

  // ----- when the SYN carries data -----

  /** If an endpoint's SYN carried a byte, because its application wrote before it connected, the other
      side never gets a second byte or the end of the stream, and the FIN is never acknowledged. */
  lemma SynDataStalls(cfgA: Config, cfgB: Config, sides: seq<Side>, events: seq<Action>, states: seq<System>, i: nat)
    requires IsRun(cfgA, cfgB, sides, events, states) && i < |states|
    requires forall k :: 0 <= k < i ==> TimelyAt(sides, events, states, k)
    requires states[i].a.gap == 1
    ensures
      var a, b := states[i].a.conn, states[i].b.conn;
      |b.receiver.Output().accepted| <= 1 && !b.receiver.Output().ended && !a.sender.finAcked
  {
    RunJoined(cfgA, cfgB, sides, events, states, i);
    JoinedStalls(states[i].a.conn, states[i].b.conn, states[i].b.gap);
  }

  lemma JoinedStalls(x: Connection, y: Connection, gy: nat)
    requires Joined(x, 1, y, gy)
    ensures |y.receiver.Output().accepted| <= 1 && !y.receiver.Output().ended && !x.sender.finAcked
  {
    StuckBehindSynData(x.sender, y.receiver);
    LinkedSafe(x.sender, y.receiver, 1);
    if x.sender.finAcked {
      LinkedComplete(x.sender, y.receiver, 1);
    }
  }

  /** The SYN carries what waits in the stream when it is sent, up to the window, which is one until an
      acknowledgment comes. */
  lemma SynCarriesData(s: Sender)
    requires Ledger(s) && s.next == 0
    ensures s.FillWindow().next > 0 && GapAfter(s, s.FillWindow(), 0) == Min(s.window, s.stream.BufferSize())
  {
    TilesOrder(s.queue, Oldest(s), s.next, s.stream.accepted, s.isn);
    assert Burst(s)[0].header.syn;
  }

  // ----- what a late SYN does -----

  lemma PushNext(r: Reassembler, data: seq<byte>)
    requires r.Valid() && r.list == [] && data != [] && |data| <= r.CurrentCapacity()
    ensures r.PushSubstring(data, r.top, false)
         == Reassembler(r.top + |data|, r.output.(accepted := r.output.accepted + data, plugged := false), r.capacity,
             [])
  {
    var b := Piece(r.top, data, false);
    assert Push([], b) == [b];
    assert data[..|data|] == data;
    assert r.Admitted(data, r.top, false) == Some(b);
  }

  lemma DataArrives(r: Receiver, isn: u32, data: seq<byte>, seg: TcpSegment)
    requires r.Valid() && r.isn == Some(isn) && r.reassembler.list == [] && r.reassembler.top == 1
    requires data != [] && |data| <= r.reassembler.CurrentCapacity()
    requires seg == TcpSegment(DEFAULT_HEADER.(seqno := Wrap(1, isn)), data)
    ensures
      var r' := r.SegmentReceived(seg);
      && r'.Valid() && r'.isn == Some(isn) && r'.reassembler.list == [] && r'.reassembler.top == 1 + |data|
      && r'.Output().accepted == r.Output().accepted + data
      && r'.reassembler.CurrentCapacity() == r.reassembler.CurrentCapacity() - |data|
  {
    hide Unwrap, Wrap, Reassembler.PushSubstring;
    LaterIndex(r, seg, 1);
    PushNext(r.reassembler, data);
  }

  lemma SynAgain(r: Receiver, isn: u32, seg: TcpSegment)
    requires r.Valid() && r.isn == Some(isn) && 0 < r.reassembler.top < TWO_31
    requires seg == TcpSegment(DEFAULT_HEADER.(seqno := Wrap(0, isn), syn := true), [])
    ensures r.SegmentReceived(seg).isn == r.isn && r.SegmentReceived(seg).reassembler == r.reassembler.(top := 1)
  {
    hide Unwrap, Wrap;
    LaterIndex(r, seg, 0);
  }

  lemma FirstSyn(isn: u32, capacity: nat, syn: TcpSegment)
    requires capacity > 0 && syn == TcpSegment(DEFAULT_HEADER.(seqno := Wrap(0, isn), syn := true), [])
    ensures
      var r := NewReceiver(capacity).SegmentReceived(syn);
      && r.Valid() && r.isn == Some(isn) && r.reassembler.list == [] && r.reassembler.top == 1
      && r.Output().accepted == [] && r.reassembler.CurrentCapacity() == capacity
  {
    hide Receiver.SegmentReceived, Reassembler.PushSubstring;
    FirstIndex(NewReceiver(capacity), syn);
    PushAtBlank(NewReceiver(capacity).reassembler, false);
  }

  /** Safety does not hold with late SYNs. The sender writes `data` once and sends a SYN and one
      segment; the network repeats both; the receiver puts out `data` twice. */
  lemma LateSynRepeatsData(isn: u32, data: seq<byte>, capacity: nat)
      returns (syn: TcpSegment, seg: TcpSegment, r1: Receiver, r2: Receiver, r3: Receiver, r4: Receiver)
    requires data != [] && 2 * |data| <= capacity && |data| + 1 < TWO_31
    ensures Genuine(syn, 0, data, isn) && Genuine(seg, 1, data, isn)
    ensures r1 == NewReceiver(capacity).SegmentReceived(syn) && r1.Valid() && r2 == r1.SegmentReceived(seg)
      && r2.Valid()
    ensures LateSyn(r2, syn) && r3 == r2.SegmentReceived(syn) && r3.Valid() && r4 == r3.SegmentReceived(seg)
    ensures r4.Output().accepted == data + data && !(r4.Output().accepted <= data)
  {
    hide Receiver.SegmentReceived, Wrap;
    syn := TcpSegment(DEFAULT_HEADER.(seqno := Wrap(0, isn), syn := true), []);
    seg := TcpSegment(DEFAULT_HEADER.(seqno := Wrap(1, isn)), data);
    assert data[0..|data|] == data;
    FirstSyn(isn, capacity, syn);
    r1 := NewReceiver(capacity).SegmentReceived(syn);
    DataArrives(r1, isn, data, seg);
    r2 := r1.SegmentReceived(seg);
    SynAgain(r2, isn, syn);
    r3 := r2.SegmentReceived(syn);
    DataArrives(r3, isn, data, seg);
    r4 := r3.SegmentReceived(seg);
  }
}
