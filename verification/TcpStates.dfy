/** The state summaries of an endpoint, and what they say about it. */
module TcpStates {
  import opened Types
  import opened ByteStreams
  import opened TcpReceivers
  import opened TcpSenders
  import opened SenderLedgers
  import opened TcpConnections
  import opened ConnectionLifecycles

  datatype SenderSummary = SenderError | Closed | SynSent | SynAcked | FinSent | FinAcked

  datatype ReceiverSummary = ReceiverError | Listen | SynRecv | FinRecv

  datatype TcpState = TcpState(sender: SenderSummary, receiver: ReceiverSummary, active: bool, linger: bool)

  /** Computed from counters only. */
  function SummarizeSender(s: Sender): SenderSummary
    requires s.stream.Valid()
  {
    if s.stream.error then SenderError
    else if s.next == 0 then Closed
    else if s.next == s.inFlight then SynSent
    else if !s.stream.Eof() then SynAcked
    else if s.next < |s.stream.accepted| + 2 then SynAcked
    else if s.inFlight != 0 then FinSent
    else FinAcked
  }

  function SummarizeReceiver(r: Receiver): ReceiverSummary {
    if r.Output().error then ReceiverError
    else if r.Ackno().None? then Listen
    else if r.Output().ended then FinRecv
    else SynRecv
  }

  function Summarize(c: Connection): TcpState
    requires c.Sound()
  {
    TcpState(SummarizeSender(c.sender), SummarizeReceiver(c.receiver), c.Active(), c.Active() && c.linger)
  }

  /** The summary read off the counters agrees with the sender's flags and ledger, in every state that
      the ledger describes and no error has struck. */
  lemma SummaryAgrees(s: Sender)
    requires Ledger(s) && !s.stream.error
    ensures
      var sum := SummarizeSender(s);
      && (sum == Closed <==> s.next == 0)
      && (sum == SynSent <==> s.next > 0 && !s.synAcked)
      && (sum == FinAcked <==> s.finAcked)
      && (sum == FinAcked ==> s.queue == [] && s.inFlight == 0)
      && (sum == FinSent <==> s.synAcked && SenderLedgers.FinSent(s) && !s.finAcked)
      && (sum == SynAcked <==> s.synAcked && !SenderLedgers.FinSent(s))
  {
    TilesOrder(s.queue, Oldest(s), s.next, s.stream.accepted, s.isn);
  }

  // ----- the official states -----

  datatype Official =
    | LISTEN | SYN_RCVD | SYN_SENT | ESTABLISHED | CLOSE_WAIT | LAST_ACK
    | FIN_WAIT_1 | FIN_WAIT_2 | CLOSING | TIME_WAIT | CLOSED | RESET

  function OfficialState(o: Official): TcpState {
    match o
    case LISTEN => TcpState(Closed, Listen, true, true)
    case SYN_RCVD => TcpState(SynSent, SynRecv, true, true)
    case SYN_SENT => TcpState(SynSent, Listen, true, true)
    case ESTABLISHED => TcpState(SynAcked, SynRecv, true, true)
    case CLOSE_WAIT => TcpState(SynAcked, FinRecv, true, false)
    case LAST_ACK => TcpState(FinSent, FinRecv, true, false)
    case CLOSING => TcpState(FinSent, FinRecv, true, true)
    case FIN_WAIT_1 => TcpState(FinSent, SynRecv, true, true)
    case FIN_WAIT_2 => TcpState(FinAcked, SynRecv, true, true)
    case TIME_WAIT => TcpState(FinAcked, FinRecv, true, true)
    case RESET => TcpState(SenderError, ReceiverError, false, false)
    case CLOSED => TcpState(FinAcked, FinRecv, false, false)
  }

  /** What the names of RFC 793 stand for: how far each direction has got and whether the endpoint still
      waits for its peer after both are done. */
  ghost predicate Describes(o: Official, c: Connection)
    requires c.Sound()
  {
    var s, heard, ended := c.sender, c.receiver.isn.Some?, c.receiver.Output().ended;
    var open := s.synAcked && !SenderLedgers.FinSent(s);
    var closing := s.synAcked && SenderLedgers.FinSent(s) && !s.finAcked;
    if c.reset then o == RESET
    else
      match o
      case LISTEN => s.next == 0 && !heard && c.linger
      case SYN_SENT => s.next > 0 && !s.synAcked && !heard && c.linger
      case SYN_RCVD => s.next > 0 && !s.synAcked && heard && !ended && c.linger
      case ESTABLISHED => open && heard && !ended && c.linger
      case CLOSE_WAIT => open && heard && ended && !c.linger
      case LAST_ACK => closing && heard && ended && !c.linger
      case CLOSING => closing && heard && ended && c.linger
      case FIN_WAIT_1 => closing && heard && !ended && c.linger
      case FIN_WAIT_2 => s.finAcked && heard && !ended && c.linger
      case TIME_WAIT => s.finAcked && heard && ended && c.linger
      case CLOSED => s.finAcked && heard && !c.linger && c.InboundEof()
      case RESET => false
  }

  /** An endpoint is summarized as an official state exactly if that state describes it. */
  lemma OfficialExactly(c: Connection, o: Official)
    requires c.Sound() && Ledger(c.sender) && ErrorsAgree(c)
    ensures Summarize(c) == OfficialState(o) <==> Describes(o, c)
  {
    hide Ledger, SummarizeSender;
    ErrorSummarized(c.sender);
    if !c.reset {
      SummaryAgrees(c.sender);
    }
  }

  lemma ErrorSummarized(s: Sender)
    requires s.stream.Valid()
    ensures SummarizeSender(s) == SenderError <==> s.stream.error
  {
  }

  /** What an endpoint in an official state is really like, given its ledger: for TIME_WAIT and CLOSED,
      all that was written is sent and acknowledged and the inbound stream has ended. */
  lemma ClosedMeansDone(c: Connection)
    requires c.Sound() && Ledger(c.sender)
    requires Summarize(c) == OfficialState(CLOSED) || Summarize(c) == OfficialState(TIME_WAIT)
    ensures c.sender.finAcked && c.sender.queue == [] && c.sender.stream.nread == |c.sender.stream.accepted|
    ensures c.receiver.Output().ended && (Summarize(c) == OfficialState(CLOSED) <==> !c.Active())
  {
    SummaryAgrees(c.sender);
  }
}
