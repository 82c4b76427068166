/** How a connection ends. */
module ConnectionLifecycles {
  import opened Types
  import opened WrappingIntegers
  import opened ByteStreams
  import opened StreamReassemblers
  import opened TcpSegments
  import opened TcpReceivers
  import opened TcpSenders
  import opened TcpConnections

  // ----- in terms of the fields -----

  /** Everything written has been read and no more will come. */
  predicate Drained(o: Stream) {
    o.ended && o.nread == |o.accepted| && !o.plugged
  }

  /** Both streams are done: the local one up to its acknowledged FIN, the inbound one up to the last read. */
  predicate BothDone(c: Connection) {
    c.sender.finAcked && Drained(c.receiver.Output())
  }

  predicate Over(c: Connection) {
    c.reset || (BothDone(c) && !c.linger)
  }

  /** The segment is taken in: no reset, the connection is not over, and if both streams are done and this
      side was first, then it is a FIN. */
  predicate Digests(c: Connection, seg: TcpSegment) {
    !seg.header.rst && !Over(c) && (BothDone(c) && c.finFirst ==> seg.header.fin)
  }

  lemma ActiveUnlessOver(c: Connection)
    requires c.Sound()
    ensures c.Active() <==> !Over(c)
  {
  }

  lemma DigestsExactly(c: Connection, seg: TcpSegment)
    requires c.Valid()
    ensures
      c.SegmentReceived(seg) ==
        var e := c.(lastReceived := 0);
        if Digests(c, seg) then e.Digest(seg).Reply(seg) else if seg.header.rst then e.SetReset() else e
  {
    hide Connection.Digest, Connection.Reply, Connection.SetReset;
  }

  // ----- what calls leave alone -----

  predicate SameFlags(s: Sender, s': Sender) {
    && s'.finAcked == s.finAcked && s'.synAcked == s.synAcked && s'.retransmissions == s.retransmissions
    && s'.stream.error == s.stream.error
  }

  lemma FillFrame(s: Sender)
    requires s.stream.Valid()
    ensures
      var s' := s.FillWindow();
      s'.stream.Valid() && SameFlags(s, s')
  {
  }

  lemma AckFlags(s: Sender, ackno: u32, win: u16)
    ensures
      var s' := s.AckReceived(ackno, win);
      && s'.stream == s.stream && (s.finAcked ==> s'.finAcked)
      && (s'.retransmissions == s.retransmissions || s'.retransmissions == 0)
  {
    hide Unwrap;
    PopFlags(s.SetWindow(win), Unwrap(ackno, s.isn, s.next));
  }

  lemma {:induction false} PopFlags(s: Sender, ack: nat)
    ensures
      var s' := s.PopAcked(ack);
      && s'.stream == s.stream && (s.finAcked ==> s'.finAcked)
      && (s'.retransmissions == s.retransmissions || s'.retransmissions == 0)
    decreases |s.queue|
  {
    hide Unwrap;
    if s.FrontAcked(ack) {
      PopFlags(s.PopFront(), ack);
    }
  }

  lemma DigestFrame(c: Connection, seg: TcpSegment)
    requires c.Valid()
    ensures
      var d := c.Digest(seg);
      && d.Sound() && d.reset == c.reset && (c.sender.finAcked ==> d.sender.finAcked)
      && d.sender.stream == c.sender.stream && d.receiver.Output().error == c.receiver.Output().error
      && (d.sender.retransmissions == c.sender.retransmissions || d.sender.retransmissions == 0)
      && d.lastReceived == c.lastReceived && d.rtTimeout == c.rtTimeout
      && d.receiver == c.receiver.SegmentReceived(seg)
      && (d.finFirst <==> c.finFirst && !(d.receiver.fsn.Some? && !Drained(c.sender.stream)))
      && (d.linger <==> c.linger && !(d.sender.synAcked && Drained(d.receiver.Output()) && !d.finFirst))
  {
    hide Sender.AckReceived, Receiver.SegmentReceived;
    AckFlags(c.sender, seg.header.ackno, seg.header.win);
    ReceiveContinues(c.receiver, seg);
  }

  /** `d` has the receiver of `c`, and everything in which they differ does not bear on its end. */
  ghost predicate SameFate(c: Connection, d: Connection) {
    && d.receiver == c.receiver && d.sender.stream.Valid()
    && SameFlags(c.sender, d.sender)
    && d.reset == c.reset && d.linger == c.linger && d.finFirst == c.finFirst
    && d.lastReceived == c.lastReceived && d.rtTimeout == c.rtTimeout
  }

  lemma FlushSame(c: Connection)
    requires c.Sound()
    ensures SameFate(c, c.Flush())
  {
  }

  lemma FilledSame(c: Connection, s: Sender)
    requires c.Sound() && s.stream.Valid() && SameFlags(c.sender, s)
    ensures SameFate(c, c.(sender := s.FillWindow())) && SameFate(c, c.(sender := s.FillWindow()).Flush())
  {
    hide Sender.FillWindow, Connection.Flush;
    FillFrame(s);
    FlushSame(c.(sender := s.FillWindow()));
  }

  lemma AnswerSame(c: Connection, seg: TcpSegment)
    requires c.Sound()
    ensures SameFate(c, c.Answer(seg))
  {
    hide Connection.Flush;
    FlushSame(c);
    FlushSame(c.(sender := c.sender.SendEmpty()));
  }

  lemma ReplySame(c: Connection, seg: TcpSegment)
    requires c.Sound()
    ensures SameFate(c, c.Reply(seg))
  {
    hide Sender.FillWindow, Connection.IsKeepAlive, Connection.Answer, Connection.Flush;
    FilledSame(c, c.sender);
    FlushSame(c.(sender := c.sender.SendEmpty()));
    AnswerSame(c.Filled(seg), seg);
  }

  // ----- inactive for good -----

  /** Connecting, writing and ending the input do not bear on the connection's end. */
  lemma OutboundSame(c: Connection, a: Action)
    requires c.Valid() && Enabled(c, a) && (a.Connect? || a.Write? || a.End?)
    ensures SameFate(c, AfterAction(c, a))
  {
    hide Sender.FillWindow, Connection.Flush, SameFate;
    match a
    case Connect => FilledSame(c, c.sender);
    case Write(data) => FilledSame(c, c.sender.(stream := c.sender.stream.Write(data)));
    case End => FilledSame(c, c.sender.(stream := c.sender.stream.EndInput()));
  }

  lemma ReceiveInactive(c: Connection, seg: TcpSegment)
    requires c.Valid() && !c.Active()
    ensures c.SegmentReceived(seg).Sound() && !c.SegmentReceived(seg).Active()
  {
    hide Connection.Digest, Connection.Reply;
  }

  lemma TickInactive(c: Connection, ms: nat)
    requires c.Valid() && !c.Active()
    ensures c.Tick(ms).Sound() && !c.Tick(ms).Active()
  {
  }

  /** A connection that is not active never becomes active again, whatever is called or arrives. */
  lemma InactiveStays(c: Connection, a: Action)
    requires c.Valid() && Enabled(c, a) && !c.Active()
    ensures AfterAction(c, a).Sound() && !AfterAction(c, a).Active()
  {
    hide Connection.SegmentReceived, Connection.Tick, Connection.Connect, Connection.Write, Connection.EndInputStream;
    match a
    case Receive(seg) => ReceiveInactive(c, seg);
    case Tick(ms) => TickInactive(c, ms);
    case Read(n) =>
    case _ => OutboundSame(c, a);
  }

  // ----- why it ends -----

  /** In this step, which leads to `d`, a segment was taken in, a FIN of the peer has been seen by then,
      and this side's stream was not finished. */
  ghost predicate PeerFirst(c: Connection, a: Action, d: Connection) {
    a.Receive? && Digests(c, a.seg) && d.receiver.fsn.Some? && !Drained(c.sender.stream)
  }

  /** In this tick, which does not give up, the inbound stream was at its end and had been silent for ten
      timeouts, with the SYN acknowledged. */
  ghost predicate Silence(c: Connection, a: Action) {
    && a.Tick? && c.sender.retransmissions < 8
    && c.sender.synAcked && Drained(c.receiver.Output()) && c.lastReceived + a.ms >= 10 * c.rtTimeout
  }

  /** In this step, which leads to `d`, a segment was taken in and found the peer first to finish, the
      inbound stream read to its end and the SYN acknowledged. */
  ghost predicate Settles(c: Connection, a: Action, d: Connection) {
    a.Receive? && Digests(c, a.seg) && d.sender.synAcked && Drained(d.receiver.Output()) && !d.finFirst
  }

  /** Both streams are in error exactly if the connection has been reset. */
  predicate ErrorsAgree(c: Connection) {
    c.sender.stream.error == c.reset && c.receiver.Output().error == c.reset
  }

  /** The milliseconds since a segment came, after this step. A tick that gives up does not count. */
  function QuietAfter(c: Connection, a: Action): nat {
    match a
    case Receive(_) => 0
    case Tick(ms) => c.lastReceived + if c.sender.retransmissions < 8 then ms else 0
    case _ => c.lastReceived
  }

  /** From `c` to `d` by `a`: exactly when this side stops being first and when it stops lingering; the
      retransmission count stays within its limit; the clock of silence. */
  ghost predicate Fate(c: Connection, a: Action, d: Connection) {
    && d.Sound()
    && (d.finFirst <==> c.finFirst && !PeerFirst(c, a, d))
    && (d.linger <==> c.linger && !Silence(c, a) && !Settles(c, a, d))
    && d.sender.retransmissions <= Max(c.sender.retransmissions, 8)
    && (ErrorsAgree(c) ==> ErrorsAgree(d))
    && d.rtTimeout == c.rtTimeout && d.lastReceived == QuietAfter(c, a)
  }

  /** Which step makes the receiver know the peer's first number and its last. */
  ghost predicate TakesSyn(c: Connection, a: Action) {
    a.Receive? && Digests(c, a.seg) && a.seg.header.syn
  }

  ghost predicate TakesFin(c: Connection, a: Action) {
    a.Receive? && Digests(c, a.seg) && a.seg.header.fin && (c.receiver.isn.Some? || a.seg.header.syn)
  }

  ghost predicate Numbers(c: Connection, a: Action, d: Connection) {
    && (d.receiver.isn.Some? <==> c.receiver.isn.Some? || TakesSyn(c, a))
    && (d.receiver.fsn.Some? <==> c.receiver.fsn.Some? || TakesFin(c, a))
  }

  lemma DigestedFate(c: Connection, seg: TcpSegment)
    requires c.Valid() && Digests(c, seg)
    ensures
      var d := c.(lastReceived := 0).Digest(seg).Reply(seg);
      Fate(c, Receive(seg), d) && Numbers(c, Receive(seg), d)
  {
    hide Connection.Digest, Connection.Reply, Receiver.SegmentReceived;
    var e := c.(lastReceived := 0);
    DigestFrame(e, seg);
    ReceiveNumbers(c.receiver, seg);
    ReplySame(e.Digest(seg), seg);
  }

  lemma ResetFate(c: Connection, seg: TcpSegment)
    requires c.Valid() && seg.header.rst
    ensures
      var d := c.(lastReceived := 0).SetReset();
      Fate(c, Receive(seg), d) && Numbers(c, Receive(seg), d)
  {
  }

  lemma IgnoredFate(c: Connection, seg: TcpSegment)
    requires c.Valid() && !Digests(c, seg)
    ensures
      var d := c.(lastReceived := 0);
      Fate(c, Receive(seg), d) && Numbers(c, Receive(seg), d)
  {
  }

  lemma ReceiveFate(c: Connection, seg: TcpSegment)
    requires c.Valid()
    ensures Fate(c, Receive(seg), c.SegmentReceived(seg)) && Numbers(c, Receive(seg), c.SegmentReceived(seg))
  {
    hide Fate, Numbers, Connection.Digest, Connection.Reply, Connection.SetReset, Connection.SegmentReceived;
    DigestsExactly(c, seg);
    if Digests(c, seg) {
      DigestedFate(c, seg);
    } else if seg.header.rst {
      ResetFate(c, seg);
    } else {
      IgnoredFate(c, seg);
    }
  }

  lemma TickedFate(c: Connection, ms: nat)
    requires c.Valid() && c.sender.retransmissions < 8
    ensures Fate(c, Tick(ms), c.Ticked(ms)) && Numbers(c, Tick(ms), c.Ticked(ms))
  {
    hide Connection.Flush, Sender.Tick;
    TickFlags(c.sender, ms);
    var linger := c.linger && !c.SilenceEnds(ms);
    FlushSame(c.(linger := linger, sender := c.sender.Tick(ms), lastReceived := c.lastReceived + ms));
  }

  lemma TickFlags(s: Sender, ms: nat)
    ensures
      var s' := s.Tick(ms);
      && s'.stream == s.stream && s'.finAcked == s.finAcked && s'.synAcked == s.synAcked
      && s'.retransmissions <= s.retransmissions + 1
  {
  }

  lemma GiveUpFate(c: Connection, ms: nat)
    requires c.Valid() && c.sender.retransmissions >= 8
    ensures Fate(c, Tick(ms), c.SendReset()) && Numbers(c, Tick(ms), c.SendReset())
  {
  }

  lemma TickFate(c: Connection, ms: nat)
    requires c.Valid()
    ensures Fate(c, Tick(ms), c.Tick(ms)) && Numbers(c, Tick(ms), c.Tick(ms))
  {
    hide Connection.Ticked, Connection.SendReset, Fate, Numbers;
    if c.sender.retransmissions < 8 {
      TickedFate(c, ms);
    } else {
      GiveUpFate(c, ms);
    }
  }

  lemma SameFateFate(c: Connection, a: Action, d: Connection)
    requires c.Valid() && SameFate(c, d) && !a.Receive? && !a.Tick?
    ensures Fate(c, a, d) && Numbers(c, a, d)
  {
  }

  lemma ReadFate(c: Connection, n: nat)
    requires c.Valid() && n <= c.receiver.Output().BufferSize()
    ensures
      var d := c.(receiver := c.receiver.Read(n));
      Fate(c, Read(n), d) && Numbers(c, Read(n), d)
  {
  }

  lemma ActionFate(c: Connection, a: Action)
    requires c.Valid() && Enabled(c, a)
    ensures Fate(c, a, AfterAction(c, a)) && Numbers(c, a, AfterAction(c, a))
  {
    hide Connection.SegmentReceived, Connection.Tick, Connection.Connect, Connection.Write, Connection.EndInputStream,
         Fate, Numbers;
    match a
    case Receive(seg) => ReceiveFate(c, seg);
    case Tick(ms) => TickFate(c, ms);
    case Read(n) => ReadFate(c, n);
    case _ =>
      OutboundSame(c, a);
      SameFateFate(c, a, AfterAction(c, a));
  }

  // ----- whole runs, with any segments arriving -----

  ghost predicate StepAt(actions: seq<Action>, states: seq<Connection>, i: nat)
    requires |states| == |actions| + 1 && i < |actions|
  {
    states[i].Valid() && Enabled(states[i], actions[i]) && states[i + 1] == AfterAction(states[i], actions[i])
  }

  ghost predicate IsRun(cfg: Config, actions: seq<Action>, states: seq<Connection>) {
    && |states| == |actions| + 1 && states[0] == NewConnection(cfg)
    && forall i :: 0 <= i < |actions| ==> StepAt(actions, states, i)
  }

  lemma StepFate(cfg: Config, actions: seq<Action>, states: seq<Connection>, i: nat)
    requires IsRun(cfg, actions, states) && i < |actions|
    ensures Fate(states[i], actions[i], states[i + 1]) && Numbers(states[i], actions[i], states[i + 1])
  {
    hide AfterAction, Fate, Numbers;
    assert StepAt(actions, states, i);
    ActionFate(states[i], actions[i]);
  }

  ghost predicate PeerFirstAt(actions: seq<Action>, states: seq<Connection>, k: nat)
    requires |states| == |actions| + 1 && k < |actions|
  {
    PeerFirst(states[k], actions[k], states[k + 1])
  }

  ghost predicate TakesFinAt(actions: seq<Action>, states: seq<Connection>, k: nat)
    requires |states| == |actions| + 1 && k < |actions|
  {
    TakesFin(states[k], actions[k])
  }

  ghost predicate TakesSynAt(actions: seq<Action>, states: seq<Connection>, k: nat)
    requires |states| == |actions| + 1 && k < |actions|
  {
    TakesSyn(states[k], actions[k])
  }

  ghost predicate SettlesAt(actions: seq<Action>, states: seq<Connection>, k: nat)
    requires |states| == |actions| + 1 && k < |actions|
  {
    Settles(states[k], actions[k], states[k + 1])
  }

  /** The milliseconds of the ticks since the last segment came, whatever it was. */
  ghost function Quiet(actions: seq<Action>, states: seq<Connection>, i: nat): nat
    requires |states| == |actions| + 1 && i <= |actions|
  {
    if i == 0 || actions[i - 1].Receive? then 0
    else
      Quiet(actions, states, i - 1)
      + if actions[i - 1].Tick? && states[i - 1].sender.retransmissions < 8 then actions[i - 1].ms else 0
  }

  /** A tick that completes ten timeouts of silence, with the SYN acknowledged and the inbound stream read
      to its end. */
  ghost predicate SilenceAt(cfg: Config, actions: seq<Action>, states: seq<Connection>, k: nat)
    requires |states| == |actions| + 1 && k < |actions|
  {
    && actions[k].Tick? && states[k].sender.retransmissions < 8
    && states[k].sender.synAcked && Drained(states[k].receiver.Output())
    && Quiet(actions, states, k + 1) >= 10 * cfg.rtTimeout
  }

  /** The retransmission count never exceeds 8, both streams are in error exactly after a reset, and the
      time since the last segment is the sum of the ticks since. */
  lemma {:induction false} RunFate(cfg: Config, actions: seq<Action>, states: seq<Connection>, i: nat)
    requires IsRun(cfg, actions, states) && i < |states|
    ensures states[i].Sound() && states[i].sender.retransmissions <= 8 && ErrorsAgree(states[i])
    ensures states[i].rtTimeout == cfg.rtTimeout && states[i].lastReceived == Quiet(actions, states, i)
  {
    hide AfterAction, PeerFirst, Silence, Settles, StepAt;
    if i > 0 {
      RunFate(cfg, actions, states, i - 1);
      StepFate(cfg, actions, states, i - 1);
    }
  }

  /** This side counts as first to finish exactly as long as no segment was taken in, with a FIN of the
      peer seen by then, while the local stream was unfinished. */
  lemma {:induction false} RunFirst(cfg: Config, actions: seq<Action>, states: seq<Connection>, i: nat)
    requires IsRun(cfg, actions, states) && i < |states|
    ensures states[i].finFirst <==> forall k :: 0 <= k < i ==> !PeerFirstAt(actions, states, k)
  {
    hide AfterAction, PeerFirst, Silence, Settles, StepAt;
    if i > 0 {
      RunFirst(cfg, actions, states, i - 1);
      StepFate(cfg, actions, states, i - 1);
      assert PeerFirstAt(actions, states, i - 1) <==> PeerFirst(states[i - 1], actions[i - 1], states[i]);
    }
  }

  /** A FIN of the peer has been seen exactly if some segment that was taken in had it and was or followed
      a SYN that was taken in. */
  lemma {:induction false} RunNumbers(cfg: Config, actions: seq<Action>, states: seq<Connection>, i: nat)
    requires IsRun(cfg, actions, states) && i < |states|
    ensures states[i].receiver.isn.Some? <==> exists k :: 0 <= k < i && TakesSynAt(actions, states, k)
    ensures states[i].receiver.fsn.Some? <==> exists k :: 0 <= k < i && TakesFinAt(actions, states, k)
  {
    hide AfterAction, Fate, TakesSyn, TakesFin, StepAt;
    if i > 0 {
      RunNumbers(cfg, actions, states, i - 1);
      StepFate(cfg, actions, states, i - 1);
      assert TakesSynAt(actions, states, i - 1) <==> TakesSyn(states[i - 1], actions[i - 1]);
      assert TakesFinAt(actions, states, i - 1) <==> TakesFin(states[i - 1], actions[i - 1]);
    }
  }

  /** A connection lingers exactly as long as no tick saw the silence and no segment was taken in after
      the inbound stream was read to its end with the peer first to finish. */
  lemma {:induction false} RunLingers(cfg: Config, actions: seq<Action>, states: seq<Connection>, i: nat)
    requires IsRun(cfg, actions, states) && i < |states|
    ensures states[i].linger <==>
      forall k :: 0 <= k < i ==> !SilenceAt(cfg, actions, states, k) && !SettlesAt(actions, states, k)
  {
    hide AfterAction, PeerFirst, Settles, StepAt;
    if i > 0 {
      RunLingers(cfg, actions, states, i - 1);
      StepFate(cfg, actions, states, i - 1);
      RunFate(cfg, actions, states, i - 1);
      assert SilenceAt(cfg, actions, states, i - 1) <==> Silence(states[i - 1], actions[i - 1]);
      assert SettlesAt(actions, states, i - 1) <==> Settles(states[i - 1], actions[i - 1], states[i]);
    }
  }

  /** When a connection is over, for any run: exactly after a reset, or when its FIN is acknowledged, the
      inbound stream is read to its end, and one of those two steps has happened before. A peer that
      finished first does not close the connection by itself: a segment has to come after the last read. */
  lemma OverExactly(cfg: Config, actions: seq<Action>, states: seq<Connection>, i: nat)
    requires IsRun(cfg, actions, states) && i < |states|
    ensures states[i].Sound()
    ensures !states[i].Active() <==>
      || states[i].reset
      || (&& states[i].sender.finAcked && Drained(states[i].receiver.Output())
          && exists k :: 0 <= k < i && (SilenceAt(cfg, actions, states, k) || SettlesAt(actions, states, k)))
  {
    hide SettlesAt, SilenceAt, StepAt, Connection.Active, Drained;
    RunFate(cfg, actions, states, i);
    RunLingers(cfg, actions, states, i);
    ActiveUnlessOver(states[i]);
  }

  /** Why a connection is over, if not by a reset: its FIN is acknowledged and the inbound stream is read to
      its end, and earlier either a segment was taken in, with the peer's FIN seen, while this side's
      stream was not finished, or a tick completed ten timeouts of silence. */
  lemma CleanCloseCause(cfg: Config, actions: seq<Action>, states: seq<Connection>, i: nat)
    requires IsRun(cfg, actions, states) && i < |states| && states[i].Sound() && !states[i].Active() && !states[i].reset
    ensures states[i].sender.finAcked && Drained(states[i].receiver.Output())
    ensures exists k :: 0 <= k < i && (PeerFirstAt(actions, states, k) || SilenceAt(cfg, actions, states, k))
  {
    hide PeerFirstAt, SilenceAt, StepAt, Connection.Active, Drained;
    OverExactly(cfg, actions, states, i);
    var k :| 0 <= k < i && (SilenceAt(cfg, actions, states, k) || SettlesAt(actions, states, k));
    if SettlesAt(actions, states, k) {
      RunFirst(cfg, actions, states, k + 1);
    }
  }

  /** Once inactive, inactive in every later state of the run. */
  lemma {:induction false} OverForGood(cfg: Config, actions: seq<Action>, states: seq<Connection>, i: nat, j: nat)
    requires IsRun(cfg, actions, states) && i <= j < |states| && states[i].Sound() && !states[i].Active()
    ensures states[j].Sound() && !states[j].Active()
    decreases j - i
  {
    hide AfterAction, Connection.Active;
    if i < j {
      OverForGood(cfg, actions, states, i, j - 1);
      assert StepAt(actions, states, j - 1);
      InactiveStays(states[j - 1], actions[j - 1]);
    }
  }

  // ----- every run goes on -----

  lemma ActionOrderly(c: Connection, a: Action)
    requires c.Valid() && Enabled(c, a) && Orderly(c.receiver) && (a.Receive? ==> !MovesTop(c.receiver, a.seg))
    ensures AfterAction(c, a).Valid() && Orderly(AfterAction(c, a).receiver)
  {
    hide Connection.SegmentReceived, Connection.Tick, Connection.Connect, Connection.Write, Connection.EndInputStream,
         MovesTop, Orderly;
    match a
    case Receive(seg) => ReceiveConnectionOrderly(c, seg);
    case Tick(ms) => TickOrderly(c, ms);
    case Read(n) =>
      ReadOrderly(c.receiver, n);
      OrderlyValid(c.receiver.Read(n));
    case _ => OutboundSame(c, a);
  }

  lemma OrderlyValid(r: Receiver)
    requires Orderly(r)
    ensures r.Valid() && Orderly(r.SetError())
  {
  }

  lemma ReceiveConnectionOrderly(c: Connection, seg: TcpSegment)
    requires c.Valid() && Orderly(c.receiver) && !MovesTop(c.receiver, seg)
    ensures c.SegmentReceived(seg).Valid() && Orderly(c.SegmentReceived(seg).receiver)
  {
    hide Orderly, MovesTop, Receiver.SegmentReceived, Receiver.SetError, Sender.AckReceived, Connection.Reply,
         Connection.Settled;
    OrderlyValid(c.receiver);
    DigestsExactly(c, seg);
    var c0 := c.(lastReceived := 0);
    if Digests(c, seg) {
      ReceiveOrderly(c.receiver, seg);
      OrderlyValid(c.receiver.SegmentReceived(seg));
      ReplySame(c0.Digest(seg), seg);
      SettledSame(c0.Handed(seg));
    } else if seg.header.rst {
      OrderlyValid(c.receiver.SetError());
    }
  }

  lemma SettledSame(c: Connection)
    requires c.Sound()
    ensures c.Settled().receiver == c.receiver && c.Settled().sender == c.sender
  {
  }

  lemma TickOrderly(c: Connection, ms: nat)
    requires c.Valid() && Orderly(c.receiver)
    ensures c.Tick(ms).Valid() && Orderly(c.Tick(ms).receiver)
  {
    hide Orderly, Receiver.SetError;
    OrderlyValid(c.receiver);
    OrderlyValid(c.receiver.SetError());
  }

  /** As long as no SYN without data is repeated, a connection's run never gets to where the next
      segment would be searched for in an unsorted list. */
  lemma {:induction false} RunGoesOn(cfg: Config, actions: seq<Action>, states: seq<Connection>, i: nat)
    requires IsRun(cfg, actions, states) && i < |states|
    requires forall k :: 0 <= k < i && actions[k].Receive? ==> !MovesTop(states[k].receiver, actions[k].seg)
    ensures states[i].Valid() && Orderly(states[i].receiver)
  {
    hide Orderly, MovesTop, AfterAction;
    if i == 0 {
      NewOrderly(cfg.recvCapacity);
    } else {
      RunGoesOn(cfg, actions, states, i - 1);
      assert StepAt(actions, states, i - 1);
      ActionOrderly(states[i - 1], actions[i - 1]);
    }
  }
}
