/** Whole runs of a sender: the ledger, the timer and the output queue in every reachable state. */
module SenderRuns {
  import opened Types
  import opened WrappingIntegers
  import opened ByteStreams
  import opened TcpSegments
  import opened TcpSenders
  import opened SenderLedgers

  // ----- the retransmission timer -----

  function Pow2(j: nat): nat {
    if j == 0 then 1 else 2 * Pow2(j - 1)
  }

  /** The oldest segment's timeout has been doubled at most once per retransmission since the last
      acknowledgment of new data; every other segment still has the initial timeout. */
  ghost predicate Timed(s: Sender) {
    && (forall k :: 1 <= k < |s.queue| ==> s.queue[k].rto == s.initialRto)
    && (s.queue != [] ==> exists j: nat :: j <= s.retransmissions && s.queue[0].rto == s.initialRto * Pow2(j))
  }

  lemma TimedAtStart(s: Sender)
    requires forall k :: 0 <= k < |s.queue| ==> s.queue[k].rto == s.initialRto
    ensures Timed(s)
  {
    assert s.initialRto == s.initialRto * Pow2(0);
  }

  lemma FillTimed(s: Sender)
    requires Ledger(s) && Timed(s)
    ensures Timed(s.FillWindow())
  {
    var s' := s.FillWindow();
    if s.queue == [] {
      TimedAtStart(s');
    } else {
      var j: nat :| j <= s.retransmissions && s.queue[0].rto == s.initialRto * Pow2(j);
      assert s'.queue[0] == s.queue[0];
    }
  }

  lemma AckTimed(s: Sender, ackno: u32, win: u16)
    requires Timed(s)
    ensures Timed(s.AckReceived(ackno, win))
  {
    var ack := Unwrap(ackno, s.isn, s.next);
    if ack <= s.next {
      AcceptTimed(s, ack, win);
    }
  }

  lemma AcceptTimed(s: Sender, ack: nat, win: u16)
    requires Timed(s)
    ensures Timed(s.AcceptAck(ack, win))
  {
    PopAckedFrame(s.SetWindow(win), ack);
    var s' := s.SetWindow(win).PopAcked(ack);
    if |s'.queue| < |s.queue| {
      assert forall k :: 1 <= k < |s'.queue| ==> s'.queue[k] == s.queue[|s.queue| - |s'.queue| + k];
      TimedAtStart(s.AcceptAck(ack, win));
    } else if s.queue != [] {
      var j: nat :| j <= s.retransmissions && s.queue[0].rto == s.initialRto * Pow2(j);
    }
  }

  lemma TickTimed(s: Sender, ms: nat)
    requires Timed(s)
    ensures Timed(s.Tick(ms))
  {
    if s.queue != [] {
      var j: nat :| j <= s.retransmissions && s.queue[0].rto == s.initialRto * Pow2(j);
      assert s.queue[0].rto * 2 == s.initialRto * Pow2(j + 1);
    }
  }

  // ----- runs -----

  datatype Event =
    | Write(data: seq<byte>)
    | End
    | Fill
    | Ack(ackno: u32, win: u16)
    | Tick(ms: nat)
    | Empty
    | Transmit

  /** Nothing is written once the FIN is out; what goes out with the SYN fits in one segment; numbers
      stay within 64 bits. Any acknowledgment may come at any time. */
  predicate Happens(s: Sender, e: Event) {
    && s.stream.Valid() && s.next < TWO_64
    && match e
       case Write(data) => MayWrite(s, data)
       case Fill => FirstFits(s)
       case Transmit => s.out != []
       case _ => true
  }

  function After(s: Sender, e: Event): Sender
    requires Happens(s, e)
  {
    match e
    case Write(data) => Written(s, data)
    case End => Ended(s)
    case Fill => s.FillWindow()
    case Ack(ackno, win) => s.AckReceived(ackno, win)
    case Tick(ms) => s.Tick(ms)
    case Empty => s.SendEmpty()
    case Transmit => s.(out := s.out[1..])
  }

  ghost predicate StepAt(events: seq<Event>, states: seq<Sender>, i: nat)
    requires |states| == |events| + 1 && i < |events|
  {
    Happens(states[i], events[i]) && states[i + 1] == After(states[i], events[i])
  }

  ghost predicate IsRun(capacity: nat, retxTimeout: u16, isn: u32, events: seq<Event>, states: seq<Sender>) {
    && |states| == |events| + 1 && states[0] == NewSender(capacity, retxTimeout, isn)
    && forall i :: 0 <= i < |events| ==> StepAt(events, states, i)
  }

  ghost predicate Invariant(s: Sender) {
    Ledger(s) && Timed(s) && AllSent(s, s.out)
  }

  lemma AllSentGrows(s: Sender, s': Sender, n: nat)
    requires Extends(s, s') && AllSent(s, s.out)
    requires n <= |s.out| && s.out[n..] <= s'.out && AllSent(s', s'.out[|s.out| - n..])
    ensures AllSent(s', s'.out)
  {
    forall k | 0 <= k < |s'.out| ensures Sent(s', s'.out[k]) {
      if k < |s.out| - n {
        assert s'.out[k] == s.out[n + k];
        SentGrows(s, s', s.out[n + k]);
      } else {
        assert s'.out[k] == s'.out[|s.out| - n..][k - (|s.out| - n)];
      }
    }
  }

  lemma AfterLedger(s: Sender, e: Event)
    requires Ledger(s) && Happens(s, e)
    ensures Ledger(After(s, e))
  {
    match e
    case Write(data) => WriteKeeps(s, data);
    case End => EndKeeps(s);
    case Fill => FillKeeps(s);
    case Ack(ackno, win) => AckKeeps(s, ackno, win);
    case Tick(ms) => TickKeeps(s, ms);
    case Empty =>
    case Transmit =>
  }

  lemma AfterTimed(s: Sender, e: Event)
    requires Ledger(s) && Timed(s) && Happens(s, e)
    ensures Timed(After(s, e))
  {
    match e
    case Fill => FillTimed(s);
    case Ack(ackno, win) => AckTimed(s, ackno, win);
    case Tick(ms) => TickTimed(s, ms);
    case _ =>
      if s.queue != [] {
        var j: nat :| j <= s.retransmissions && s.queue[0].rto == s.initialRto * Pow2(j);
      }
  }

  lemma AfterSent(s: Sender, e: Event)
    requires Ledger(s) && AllSent(s, s.out) && Happens(s, e)
    ensures AllSent(After(s, e), After(s, e).out)
  {
    var s' := After(s, e);
    match e
    case Write(data) => AllSentGrows(s, s', 0);
    case End => AllSentGrows(s, s', 0);
    case Fill => FillSent(s); AllSentGrows(s, s', 0);
    case Ack(ackno, win) =>
      AckFrame(s, ackno, win);
      AllSentGrows(s, s', 0);
    case Tick(ms) => TickSent(s, ms); AllSentGrows(s, s', 0);
    case Empty => SendEmptySent(s); AllSentGrows(s, s', 0);
    case Transmit => AllSentGrows(s, s', 1);
  }

  lemma AckFrame(s: Sender, ackno: u32, win: u16)
    ensures
      var s' := s.AckReceived(ackno, win);
      s'.next == s.next && s'.stream == s.stream && s'.isn == s.isn && s'.out == s.out
  {
    PopAckedFrame(s.SetWindow(win), Unwrap(ackno, s.isn, s.next));
  }

  /** In every state of every run: the queue tiles the numbers in flight with genuine segments, next
      sequence number = SYN sent + bytes read + FIN sent, at most 65535 numbers are in flight, the timer
      is as it should be, and everything handed to the network is genuine. */
  lemma {:induction false} SenderRun(capacity: nat, retxTimeout: u16, isn: u32, events: seq<Event>,
                                     states: seq<Sender>, i: nat)
    requires IsRun(capacity, retxTimeout, isn, events, states) && i < |states|
    ensures Invariant(states[i])
  {
    if i == 0 {
      NewSenderLedger(capacity, retxTimeout, isn);
    } else {
      SenderRun(capacity, retxTimeout, isn, events, states, i - 1);
      assert StepAt(events, states, i - 1);
      AfterLedger(states[i - 1], events[i - 1]);
      AfterTimed(states[i - 1], events[i - 1]);
      AfterSent(states[i - 1], events[i - 1]);
    }
  }
}
