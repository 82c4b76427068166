/** The retransmission timer over whole runs of a sender, against a timer that watches from outside. */
module SenderTimers {
  import opened Types
  import opened WrappingIntegers
  import opened TcpSegments
  import opened TcpSenders
  import opened SenderLedgers
  import opened SenderRuns

  /** What an observer notes who sees the events, how many segments are in flight and how many wait to go
      out: the milliseconds of all ticks; whether the last window taken was zero; for each segment in flight
      when it was sent, sent again, or became the oldest by an acknowledgment; how often the oldest was sent
      again since something was acknowledged; and how often of these the window was not zero. */
  datatype Timer = Timer(clock: nat, shut: bool, times: seq<nat>, resends: nat, doublings: nat)

  /** The oldest segment was sent again. */
  predicate Resent(e: Event, s: Sender, s': Sender) {
    e.Tick? && |s'.out| > |s.out|
  }

  function Repeat(x: nat, n: nat): (xs: seq<nat>)
    ensures |xs| == n && forall k :: 0 <= k < n ==> xs[k] == x
  {
    seq(n, _ => x)
  }

  function NextTimes(t: Timer, e: Event, s: Sender, s': Sender, now: nat): (times: seq<nat>)
    requires |t.times| == |s.queue|
    ensures |times| == |s'.queue|
  {
    var n, n' := |s.queue|, |s'.queue|;
    if n' > n then t.times + Repeat(now, n' - n)
    else if n' < n then (if n' == 0 then [] else [now] + t.times[n - n' + 1..])
    else if Resent(e, s, s') && n > 0 then t.times[0 := now]
    else t.times
  }

  function NextTimer(t: Timer, e: Event, s: Sender, s': Sender): (t': Timer)
    requires |t.times| == |s.queue|
    ensures |t'.times| == |s'.queue|
  {
    var now := t.clock + if e.Tick? then e.ms else 0;
    var popped, resent := |s'.queue| < |s.queue|, Resent(e, s, s');
    Timer(now,
      if e.Ack? && Unwrap(e.ackno, s.isn, s.next) <= s.next then e.win == 0 else t.shut,
      NextTimes(t, e, s, s', now),
      if popped then 0 else if resent then t.resends + 1 else t.resends,
      if popped || s.queue == [] then 0 else if resent && !t.shut then t.doublings + 1 else t.doublings)
  }

  ghost function TimerAt(events: seq<Event>, states: seq<Sender>, i: nat): (t: Timer)
    requires |states| == |events| + 1 && i < |states|
    ensures |t.times| == |states[i].queue|
  {
    if i == 0 then Timer(0, false, Repeat(0, |states[0].queue|), 0, 0)
    else NextTimer(TimerAt(events, states, i - 1), events[i - 1], states[i - 1], states[i])
  }

  /** The sender's own fields agree with the observer: its clock, its times and counts, and a timeout of the
      oldest segment that is the initial one doubled once for each time it was sent again with the window
      not zero. */
  ghost predicate Agree(t: Timer, s: Sender) {
    && s.lastTick == t.clock && s.windowZero == t.shut && s.retransmissions == t.resends
    && |t.times| == |s.queue| && (forall k :: 0 <= k < |s.queue| ==> s.queue[k].time == t.times[k])
    && (s.queue != [] ==> s.queue[0].rto == s.initialRto * Pow2(t.doublings))
    && (forall k :: 1 <= k < |s.queue| ==> s.queue[k].rto == s.initialRto)
  }

  /** `fill_window` only adds to what is in flight, each segment with the initial timeout and the present time. */
  lemma FillTracks(s: Sender) returns (segs: seq<TcpSegment>)
    requires s.stream.Valid()
    ensures
      var s' := s.FillWindow();
      && s'.queue == s.queue + Track(segs, s.initialRto, s.lastTick) && s'.initialRto == s.initialRto
      && s'.lastTick == s.lastTick && s'.windowZero == s.windowZero && s'.retransmissions == s.retransmissions
  {
    hide Cut;
    if s.Remaining() == 0 || (!s.synAcked && s.queue != []) || s.NothingToSend() {
      segs := [];
      assert Track(segs, s.initialRto, s.lastTick) == [];
    } else {
      segs := Cut(s.isn, s.next, !s.synAcked, s.SendsFin(), s.stream.Buffered()[..s.Readable()]);
    }
  }

  lemma FillAgrees(t: Timer, s: Sender)
    requires Agree(t, s) && s.stream.Valid()
    ensures Agree(NextTimer(t, Fill, s, s.FillWindow()), s.FillWindow())
  {
    hide Sender.FillWindow, Pow2;
    PowZero();
    var segs := FillTracks(s);
  }

  lemma PowZero()
    ensures Pow2(0) == 1
  {
  }

  lemma TickAgrees(t: Timer, s: Sender, ms: nat)
    requires Agree(t, s)
    ensures Agree(NextTimer(t, Tick(ms), s, s.Tick(ms)), s.Tick(ms))
  {
    PowNext(s.initialRto, t.doublings);
  }

  lemma PowNext(x: nat, j: nat)
    ensures x * Pow2(j) * 2 == x * Pow2(j + 1)
  {
  }

  /** Popping and then restarting the timer of the new head. */
  lemma PoppedAgrees(t: Timer, s: Sender, s': Sender, ackno: u32, win: u16)
    requires Agree(t, s) && Unwrap(ackno, s.isn, s.next) <= s.next
    requires s'.lastTick == s.lastTick && s'.initialRto == s.initialRto && s'.windowZero == (win == 0)
    requires |s'.queue| < |s.queue| && s'.retransmissions == 0
    requires s'.queue != [] ==>
      var n := |s.queue| - |s'.queue|;
      s'.queue == s.queue[n..][0 := s.queue[n].(rto := s.initialRto, time := s.lastTick)]
    ensures Agree(NextTimer(t, Ack(ackno, win), s, s'), s')
  {
    hide Unwrap;
    PowZero();
  }

  lemma KeptAgrees(t: Timer, s: Sender, s': Sender, e: Event)
    requires Agree(t, s) && !e.Tick? && s'.queue == s.queue
    requires s'.lastTick == s.lastTick && s'.initialRto == s.initialRto && s'.retransmissions == s.retransmissions
    requires s'.windowZero == if e.Ack? && Unwrap(e.ackno, s.isn, s.next) <= s.next then e.win == 0 else s.windowZero
    ensures Agree(NextTimer(t, e, s, s'), s')
  {
    hide Unwrap;
  }

  /** What an accepted acknowledgment does to the timer: nothing if it takes nothing off, else the new head
      starts afresh. */
  lemma AcceptShape(s: Sender, ack: nat, win: u16)
    ensures
      var s' := s.AcceptAck(ack, win);
      && s'.lastTick == s.lastTick && s'.initialRto == s.initialRto && s'.windowZero == (win == 0)
      && |s'.queue| <= |s.queue|
      && (|s'.queue| == |s.queue| ==> s'.queue == s.queue && s'.retransmissions == s.retransmissions)
      && (|s'.queue| < |s.queue| ==> s'.retransmissions == 0)
      && (0 < |s'.queue| < |s.queue| ==>
            var n := |s.queue| - |s'.queue|;
            s'.queue == s.queue[n..][0 := s.queue[n].(rto := s.initialRto, time := s.lastTick)])
  {
    hide Sender.PopAcked;
    PopAckedFrame(s.SetWindow(win), ack);
  }

  lemma AckAgrees(t: Timer, s: Sender, ackno: u32, win: u16)
    requires Agree(t, s)
    ensures Agree(NextTimer(t, Ack(ackno, win), s, s.AckReceived(ackno, win)), s.AckReceived(ackno, win))
  {
    hide Unwrap, Agree, Sender.AcceptAck, NextTimer;
    var ack := Unwrap(ackno, s.isn, s.next);
    var s' := s.AckReceived(ackno, win);
    if ack <= s.next {
      AcceptShape(s, ack, win);
      if |s'.queue| < |s.queue| {
        PoppedAgrees(t, s, s', ackno, win);
      } else {
        KeptAgrees(t, s, s', Ack(ackno, win));
      }
    } else {
      KeptAgrees(t, s, s', Ack(ackno, win));
    }
  }

  lemma AfterAgrees(t: Timer, s: Sender, e: Event)
    requires Agree(t, s) && Happens(s, e)
    ensures Agree(NextTimer(t, e, s, After(s, e)), After(s, e))
  {
    hide Agree, NextTimer, Unwrap;
    match e
    case Fill => FillAgrees(t, s);
    case Tick(ms) => TickAgrees(t, s, ms);
    case Ack(ackno, win) => AckAgrees(t, s, ackno, win);
    case _ => KeptAgrees(t, s, After(s, e), e);
  }

  /** In every state of every run the sender's timer is what the observer notes. */
  lemma {:induction false} TimerRun(capacity: nat, retxTimeout: u16, isn: u32, events: seq<Event>, states: seq<Sender>,
                                    i: nat)
    requires IsRun(capacity, retxTimeout, isn, events, states) && i < |states|
    ensures Agree(TimerAt(events, states, i), states[i]) && states[i].initialRto == retxTimeout
  {
    hide NextTimer, After;
    if i > 0 {
      TimerRun(capacity, retxTimeout, isn, events, states, i - 1);
      assert StepAt(events, states, i - 1);
      AfterAgrees(TimerAt(events, states, i - 1), states[i - 1], events[i - 1]);
      AfterRto(states[i - 1], events[i - 1]);
    }
  }

  lemma AfterRto(s: Sender, e: Event)
    requires Happens(s, e)
    ensures After(s, e).initialRto == s.initialRto
  {
    hide Unwrap, Sender.PopAcked, Cut;
    if e.Ack? {
      PopAckedFrame(s.SetWindow(e.win), Unwrap(e.ackno, s.isn, s.next));
    }
  }

  /** When the observed timer is up. */
  ghost predicate Due(t: Timer, rto: nat, now: nat) {
    t.times != [] && t.times[0] + rto * Pow2(t.doublings) <= now
  }

  /** A tick sends the oldest segment again, as it is, exactly if the time since it was sent, sent again or
      became the oldest has reached its timeout; else nothing goes out. */
  lemma ResendExactly(capacity: nat, retxTimeout: u16, isn: u32, events: seq<Event>, states: seq<Sender>, i: nat)
    requires IsRun(capacity, retxTimeout, isn, events, states) && i < |events| && events[i].Tick?
    ensures
      var due := Due(TimerAt(events, states, i), retxTimeout, TimerAt(events, states, i + 1).clock);
      && (Resent(events[i], states[i], states[i + 1]) <==> due) && (due ==> states[i].queue != [])
      && states[i + 1].out == states[i].out + if due then [states[i].queue[0].seg] else []
  {
    hide Pow2;
    TimerRun(capacity, retxTimeout, isn, events, states, i);
    assert StepAt(events, states, i);
  }

  ghost predicate KeepsHead(events: seq<Event>, states: seq<Sender>, k: nat)
    requires |states| == |events| + 1 && k < |events|
  {
    |states[k + 1].queue| >= |states[k].queue| && !Resent(events[k], states[k], states[k + 1])
  }

  lemma {:induction false} HeadStays(events: seq<Event>, states: seq<Sender>, i: nat, n: nat)
    requires |states| == |events| + 1 && i <= n < |states| && states[i].queue != []
    requires forall k :: i <= k < n ==> KeepsHead(events, states, k)
    ensures
      var t, t' := TimerAt(events, states, i), TimerAt(events, states, n);
      states[n].queue != [] && t'.times[0] == t.times[0] && t'.doublings == t.doublings
    decreases n
  {
    hide Unwrap;
    if i < n {
      HeadStays(events, states, i, n - 1);
      assert KeepsHead(events, states, n - 1);
    }
  }

  /** A segment in flight that is not acknowledged is sent again in time: once ticks have brought the clock
      to its timeout, one of them has. */
  lemma ResentInTime(capacity: nat, retxTimeout: u16, isn: u32, events: seq<Event>, states: seq<Sender>, i: nat, n: nat)
    requires IsRun(capacity, retxTimeout, isn, events, states) && i < n < |states| && states[i].queue != []
    requires forall k :: i <= k < n ==> |states[k + 1].queue| >= |states[k].queue|
    requires events[n - 1].Tick? && Due(TimerAt(events, states, i), retxTimeout, TimerAt(events, states, n).clock)
    ensures exists k :: i <= k < n && Resent(events[k], states[k], states[k + 1])
  {
    hide Resent;
    if forall k :: i <= k < n - 1 ==> !Resent(events[k], states[k], states[k + 1]) {
      assert forall k :: i <= k < n - 1 ==> KeepsHead(events, states, k);
      HeadStays(events, states, i, n - 1);
      ResendExactly(capacity, retxTimeout, isn, events, states, n - 1);
    }
  }
}
