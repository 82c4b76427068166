/** One direction of data transfer: what ties a sender to the receiver at the other end, whatever the
    network between them loses, repeats or reorders. */
module Directions {
  import opened Types
  import opened WrappingIntegers
  import opened ByteStreams
  import opened BufferStrings
  import opened StreamReassemblers
  import opened TcpSegments
  import opened TcpReceivers
  import opened TcpSenders
  import opened SenderLedgers

  // ----- how the receiver numbers the stream -----

  /** The receiver files a segment under its absolute number, also one with SYN and data. So if the SYN
      carried `gap` bytes, those have indices below `gap`, no byte has index `gap`, and byte k is at
      k+1 from there on. */
  ghost function Tape(bytes: seq<byte>, gap: nat): (tape: seq<Option<byte>>)
    requires gap <= |bytes|
    ensures |tape| == |bytes| + 1 && tape[gap] == None
    ensures forall k :: 0 <= k < gap ==> tape[k] == Some(bytes[k])
    ensures forall k :: gap < k <= |bytes| ==> tape[k] == Some(bytes[k - 1])
  {
    TapeOf(bytes[..gap]) + [None] + TapeOf(bytes[gap..])
  }

  /** `seg` is what `s` sent at number `a`, its SYN having carried `gap` bytes. */
  ghost predicate SentAt(s: Sender, gap: nat, seg: TcpSegment, a: nat) {
    var n := seg.LengthInSequenceSpace();
    && Genuine(seg, a, s.stream.accepted, s.isn) && a + n <= s.next
    && (n > 0 && a > 0 ==> a > gap)
    && (seg.header.syn ==> |seg.payload| == gap && (gap > 0 ==> !seg.header.fin))
  }

  ghost predicate SentBy(s: Sender, gap: nat, seg: TcpSegment) {
    exists a: nat :: SentAt(s, gap, seg, a)
  }

  /** Segments in flight are kept without acknowledgment; the connection adds it on the way out. */
  ghost predicate Plain(q: seq<Outstanding>) {
    forall k :: 0 <= k < |q| ==> !q[k].seg.header.ack
  }

  /** The sender's side: the ledger, and the SYN carried `gap` bytes, at most one. */
  ghost predicate Sending(s: Sender, gap: nat) {
    && Ledger(s) && s.next < TWO_64 && Plain(s.queue)
    && gap <= 1 && gap <= s.stream.nread && (s.next == 0 ==> s.window == 1)
    && (s.next > 0 && Oldest(s) == 0 ==> s.queue[0].seg.header.syn && SynShape(s.queue[0].seg, gap))
    && (Oldest(s) > 0 ==> Oldest(s) > gap)
  }

  /** The receiver's side: blank until the SYN, faithful to the sender's stream from then on. */
  ghost predicate Receiving(s: Sender, r: Receiver, gap: nat) {
    if r.isn.None? then Blank(r.reassembler)
    else
      && r.isn == Some(s.isn) && s.next > 0 && gap <= 1 && gap <= s.stream.nread <= |s.stream.accepted|
      && Faithful(r.reassembler, Tape(s.stream.accepted, gap), 1 - gap, s.stream.nread + 1, FinSent(s))
  }

  /** The invariant of one direction. */
  ghost predicate Linked(s: Sender, r: Receiver, gap: nat) {
    Sending(s, gap) && Receiving(s, r, gap) && Oldest(s) <= r.AckAbsolute()
  }

  // ----- what the invariant gives -----

  /** A receiver whose SYN came with data never gets past it. */
  lemma StuckBehindSynData(s: Sender, r: Receiver)
    requires Sending(s, 1) && Receiving(s, r, 1)
    ensures |r.Output().accepted| <= 1 && !r.Output().ended
  {
    if r.isn.Some? {
      HoleStops(r.Output().accepted, Tape(s.stream.accepted, 1), 0, 1);
    }
  }

  lemma {:induction false} HoleStops(bytes: seq<byte>, tape: seq<Option<byte>>, base: nat, hole: nat)
    requires ReadsFrom(bytes, tape, base) && base <= hole < |tape| && tape[hole] == None
    ensures base + |bytes| <= hole
  {
    if bytes != [] {
      var n := |bytes| - 1;
      assert tape[base + n] == Some(bytes[n]);
      HoleStops(bytes[..n], tape, base, hole);
    }
  }

  /** What was received is a prefix of what was written, and the acknowledgment number lies between
      the oldest unacknowledged number and the next one. */
  lemma LinkedSafe(s: Sender, r: Receiver, gap: nat)
    requires Linked(s, r, gap)
    ensures r.Output().accepted <= s.stream.accepted
    ensures Oldest(s) <= r.AckAbsolute() <= s.next
  {
    if r.isn.Some? {
      if gap == 1 {
        StuckBehindSynData(s, r);
      }
      var tape, got := Tape(s.stream.accepted, gap), r.Output().accepted;
      assert forall k :: 0 <= k < |got| ==> tape[1 - gap + k] == Some(got[k]);
    }
  }

  /** Once its FIN is acknowledged, everything the sender's application wrote has been received, and
      the receiver's stream has ended. */
  lemma LinkedComplete(s: Sender, r: Receiver, gap: nat)
    requires Linked(s, r, gap) && s.finAcked
    ensures r.Output().accepted == s.stream.accepted && r.Output().ended
  {
    LinkedSafe(s, r, gap);
  }

  // ----- a segment arrives -----

  /** `seg` was sent at a number within 2^31 of what the receiver expects, as the maximum segment
      lifetime has it. */
  ghost predicate Near(s: Sender, gap: nat, seg: TcpSegment, top: nat) {
    exists a: nat :: SentAt(s, gap, seg, a) && Distance(a, top) < TWO_31
  }

  /** A SYN without data that arrives after bytes have been assembled. */
  predicate LateSyn(r: Receiver, seg: TcpSegment) {
    seg.header.syn && seg.payload == [] && r.isn.Some? && r.Output().accepted != []
  }

  /** The piece a receiver makes of a segment agrees with the stream. */
  lemma PieceCutFrom(s: Sender, gap: nat, seg: TcpSegment, a: nat)
    requires gap <= |s.stream.accepted| && SentAt(s, gap, seg, a)
    ensures CutFrom(Piece(a, seg.payload, seg.header.fin), Tape(s.stream.accepted, gap))
  {
    hide Tape, Wrap;
    var bytes, tape := s.stream.accepted, Tape(s.stream.accepted, gap);
    var first := if seg.header.syn then a else a - 1;
    if seg.payload != [] {
      forall k | 0 <= k < |seg.payload| ensures tape[a + k] == Some(seg.payload[k]) {
        assert seg.payload[k] == bytes[first + k];
      }
    }
  }

  lemma PieceRespects(s: Sender, gap: nat, seg: TcpSegment, a: nat)
    requires Ledger(s) && s.next > 0 && SentAt(s, gap, seg, a)
    requires seg.header.syn ==> seg.payload != []
    ensures Respects(Piece(a, seg.payload, seg.header.fin), s.stream.nread + 1, FinSent(s))
  {
    hide Tiles, Wrap;
  }

  lemma PieceOfSegment(s: Sender, gap: nat, seg: TcpSegment, a: nat)
    requires Sending(s, gap) && s.next > 0 && SentAt(s, gap, seg, a)
    requires seg.header.syn ==> seg.payload != []
    ensures
      var p := Piece(a, seg.payload, seg.header.fin);
      CutFrom(p, Tape(s.stream.accepted, gap)) && Respects(p, s.stream.nread + 1, FinSent(s))
  {
    hide Tape, SentAt, CutFrom, Respects;
    PieceCutFrom(s, gap, seg, a);
    PieceRespects(s, gap, seg, a);
  }

  lemma BareSynArrives(s: Sender, r: Receiver, seg: TcpSegment)
    requires Sending(s, 0) && s.next > 0 && Blank(r.reassembler)
    requires seg.header.syn && seg.payload == [] && SentAt(s, 0, seg, 0)
    ensures Faithful(r.PushIndexed(seg, 0), Tape(s.stream.accepted, 0), 1, s.stream.nread + 1, FinSent(s))
  {
    PushAtBlank(r.reassembler, seg.header.fin);
  }

  lemma SynDataArrives(s: Sender, r: Receiver, seg: TcpSegment)
    requires Sending(s, 1) && s.next > 0 && Blank(r.reassembler)
    requires seg.header.syn && seg.payload != [] && SentAt(s, 1, seg, 0)
    ensures Faithful(r.PushIndexed(seg, 0), Tape(s.stream.accepted, 1), 0, s.stream.nread + 1, FinSent(s))
  {
    hide Reassembler.PushSubstring;
    PieceOfSegment(s, 1, seg, 0);
    PushFaithful(r.reassembler, seg.payload, 0, seg.header.fin, Tape(s.stream.accepted, 1), 0, s.stream.nread + 1,
        FinSent(s));
  }

  /** The first SYN. */
  lemma SynArrives(s: Sender, r: Receiver, gap: nat, seg: TcpSegment)
    requires Sending(s, gap) && Blank(r.reassembler) && r.isn.None? && SentBy(s, gap, seg) && seg.header.syn
    ensures Receiving(s, r.SegmentReceived(seg), gap)
  {
    hide Unwrap, Faithful, Tape, Reassembler.PushSubstring, Receiver.SegmentReceived, Receiver.PushIndexed;
    var a: nat :| SentAt(s, gap, seg, a);
    FirstIndex(r, seg);
    assert seg.header.seqno == s.isn;
    if gap == 0 {
      BareSynArrives(s, r, seg);
    } else {
      SynDataArrives(s, r, seg);
    }
  }

  lemma FirstIndex(r: Receiver, seg: TcpSegment)
    requires r.Valid() && r.isn.None? && seg.header.syn && r.reassembler.top == 0
    ensures
      var r' := r.SegmentReceived(seg);
      r'.isn == Some(seg.header.seqno) && r'.reassembler == r.PushIndexed(seg, 0)
  {
    hide Unwrap, Wrap;
    UnwrapFirst(seg.header.seqno);
  }

  lemma LaterIndex(r: Receiver, seg: TcpSegment, a: nat)
    requires r.Valid() && r.isn.Some? && a < TWO_64 && r.reassembler.top < TWO_64
    requires seg.header.seqno == Wrap(a, r.isn.value) && Distance(a, r.reassembler.top) < TWO_31
    ensures
      var r' := r.SegmentReceived(seg);
      r'.isn == r.isn && r'.reassembler == r.PushIndexed(seg, a)
  {
    hide Unwrap, Wrap;
    UnwrapNear(a, r.isn.value, r.reassembler.top);
  }

  lemma RepeatedSyn(r: Receiver, seg: TcpSegment)
    requires r.Valid() && seg.header.syn && seg.payload == []
    ensures r.reassembler.top == 1 ==> r.PushIndexed(seg, 0) == r.reassembler
  {
  }

  lemma BareSynRepeats(s: Sender, r: Receiver, gap: nat, seg: TcpSegment, a: nat)
    requires Receiving(s, r, gap) && r.isn.Some? && SentAt(s, gap, seg, a)
    requires seg.header.syn && seg.payload == [] && r.Output().accepted == []
    ensures r.PushIndexed(seg, a) == r.reassembler
  {
    RepeatedSyn(r, seg);
  }

  lemma SegmentFaithful(s: Sender, r: Receiver, gap: nat, seg: TcpSegment, a: nat)
    requires Sending(s, gap) && Receiving(s, r, gap) && r.isn.Some? && SentAt(s, gap, seg, a) && !LateSyn(r, seg)
    ensures Faithful(r.PushIndexed(seg, a), Tape(s.stream.accepted, gap), 1 - gap, s.stream.nread + 1, FinSent(s))
  {
    hide Faithful, Tape, Sending, SentAt, Reassembler.PushSubstring;
    if seg.header.syn && seg.payload == [] {
      BareSynRepeats(s, r, gap, seg, a);
    } else {
      PieceOfSegment(s, gap, seg, a);
      PushFaithful(r.reassembler, seg.payload, a, seg.header.fin, Tape(s.stream.accepted, gap), 1 - gap,
          s.stream.nread + 1, FinSent(s));
    }
  }

  lemma NumbersFit(s: Sender, r: Receiver, gap: nat, seg: TcpSegment, a: nat)
    requires Sending(s, gap) && Receiving(s, r, gap) && r.isn.Some? && SentAt(s, gap, seg, a)
    ensures a < TWO_64 && r.reassembler.top < TWO_64 && r.Valid() && seg.header.seqno == Wrap(a, r.isn.value)
  {
  }

  /** Any other segment. */
  lemma SegmentArrives(s: Sender, r: Receiver, gap: nat, seg: TcpSegment)
    requires Sending(s, gap) && Receiving(s, r, gap) && r.isn.Some?
    requires Near(s, gap, seg, r.reassembler.top) && !LateSyn(r, seg)
    ensures r.Valid() && Receiving(s, r.SegmentReceived(seg), gap)
  {
    hide Unwrap, Wrap, Faithful, Tape, Sending, SentAt, Reassembler.PushSubstring, Receiver.SegmentReceived,
         Receiver.PushIndexed;
    var a: nat :| SentAt(s, gap, seg, a) && Distance(a, r.reassembler.top) < TWO_31;
    NumbersFit(s, r, gap, seg, a);
    LaterIndex(r, seg, a);
    SegmentFaithful(s, r, gap, seg, a);
  }

  lemma AckNeverFalls(r: Receiver, seg: TcpSegment)
    requires r.Valid()
    ensures r.AckAbsolute() <= r.SegmentReceived(seg).AckAbsolute()
    ensures r.isn.Some? ==> r.SegmentReceived(seg).isn == r.isn
  {
    hide Receiver.SegmentReceived;
    ReceiveContinues(r, seg);
  }

  /** A late SYN puts `top` back to 1 while the output stands further on. */
  lemma LateSynBreaks(s: Sender, r: Receiver, gap: nat, seg: TcpSegment)
    requires Sending(s, gap) && Receiving(s, r, gap) && LateSyn(r, seg) && Near(s, gap, seg, r.reassembler.top)
    ensures !Receiving(s, r.SegmentReceived(seg), gap)
  {
    hide Unwrap, Wrap, Reassembler.PushSubstring, Receiver.SegmentReceived;
    var a: nat :| SentAt(s, gap, seg, a) && Distance(a, r.reassembler.top) < TWO_31;
    NumbersFit(s, r, gap, seg, a);
    LaterIndex(r, seg, a);
    ReceiveContinues(r, seg);
  }

  /** Delivery of anything the sender ever sent keeps the link if and only if it is not a late SYN. */
  lemma DeliverKeeps(s: Sender, r: Receiver, gap: nat, seg: TcpSegment)
    requires Linked(s, r, gap) && SentBy(s, gap, seg)
    requires r.isn.Some? ==> Near(s, gap, seg, r.reassembler.top)
    ensures r.Valid()
    ensures Linked(s, r.SegmentReceived(seg), gap) <==> !LateSyn(r, seg)
  {
    hide Sending, Receiver.SegmentReceived, SentAt, Faithful;
    LinkedValid(s, r, gap);
    AckNeverFalls(r, seg);
    if r.isn.Some? {
      if LateSyn(r, seg) {
        LateSynBreaks(s, r, gap, seg);
      } else {
        SegmentArrives(s, r, gap, seg);
      }
    } else if seg.header.syn {
      SynArrives(s, r, gap, seg);
    } else {
      NoSynNoChange(r, seg);
    }
  }

  /** And it gets somewhere: a segment that starts no later than what is expected is taken in as far as the
      window goes. */
  lemma DeliverAdvances(s: Sender, r: Receiver, gap: nat, seg: TcpSegment, a: nat)
    requires Linked(s, r, gap) && r.isn.Some? && SentAt(s, gap, seg, a) && !LateSyn(r, seg)
    requires a <= r.reassembler.top < a + TWO_31
    ensures r.Valid()
    ensures
      var r', o := r.SegmentReceived(seg), r.Output();
      |r'.Output().accepted| >= Min(a + |seg.payload| - (1 - gap), o.nread + o.capacity)
  {
    hide Unwrap, Wrap, Tape, Reassembler.PushSubstring, Receiver.SegmentReceived, Receiver.PushIndexed, SentAt, LateSyn;
    NumbersFit(s, r, gap, seg, a);
    LaterIndex(r, seg, a);
    SegmentFaithful(s, r, gap, seg, a);
    PushIndexedReaches(r, seg, a);
  }

  lemma PushIndexedReaches(r: Receiver, seg: TcpSegment, a: nat)
    requires r.Valid() && r.reassembler.Placed() && a <= r.reassembler.top
    ensures
      var r' := r.PushIndexed(seg, a);
      r'.top >= Min(a + |seg.payload|, r.reassembler.Limit())
  {
    hide Reassembler.PushSubstring;
    PushReaches(r.reassembler, seg.payload, a, seg.header.fin);
  }

  lemma LinkedValid(s: Sender, r: Receiver, gap: nat)
    requires Receiving(s, r, gap)
    ensures r.Valid()
  {
  }

  lemma NoSynNoChange(r: Receiver, seg: TcpSegment)
    requires r.Valid() && r.isn.None? && !seg.header.syn
    ensures r.SegmentReceived(seg) == r
  {
  }

  // ----- the application reads -----

  lemma ReadKeepsLink(s: Sender, r: Receiver, gap: nat, n: nat)
    requires Linked(s, r, gap) && r.Valid() && n <= r.Output().BufferSize()
    ensures Linked(s, r.Read(n), gap)
  {
    hide Faithful, Tape, Sending;
    if r.isn.Some? {
      ReadFaithful(r.reassembler, n, Tape(s.stream.accepted, gap), 1 - gap, s.stream.nread + 1, FinSent(s));
    }
  }

  // ----- the sender goes on -----

  /** Faithful stays faithful when the stream grows, unless it was finished. */
  lemma FaithfulGrows(r: Reassembler, tape: seq<Option<byte>>, tape': seq<Option<byte>>, base: nat,
                      end: nat, end': nat, finished: bool, finished': bool)
    requires Faithful(r, tape, base, end, finished) && tape <= tape' && end <= end'
    requires finished ==> finished' && end' == end
    ensures Faithful(r, tape', base, end', finished')
  {
  }

  /** What any call leaves of a sender: more bytes, more sent; nothing more once the FIN is sent. */
  ghost predicate Advances(s: Sender, s': Sender) {
    && Extends(s, s') && s.stream.nread <= s'.stream.nread
    && (FinSent(s) ==> FinSent(s') && s'.stream.nread == s.stream.nread)
  }

  lemma TapeGrows(bytes: seq<byte>, bytes': seq<byte>, gap: nat)
    requires bytes <= bytes' && gap <= |bytes|
    ensures Tape(bytes, gap) <= Tape(bytes', gap)
  {
  }

  lemma ReceivingAdvances(s: Sender, s': Sender, r: Receiver, gap: nat)
    requires Sending(s, gap) && Receiving(s, r, gap) && Ledger(s') && Advances(s, s')
    ensures Receiving(s', r, gap)
  {
    hide Faithful, Tape;
    if r.isn.Some? {
      TapeGrows(s.stream.accepted, s'.stream.accepted, gap);
      FaithfulGrows(r.reassembler, Tape(s.stream.accepted, gap), Tape(s'.stream.accepted, gap), 1 - gap,
                    s.stream.nread + 1, s'.stream.nread + 1, FinSent(s), FinSent(s'));
    }
  }

  lemma SentByAdvances(s: Sender, s': Sender, gap: nat, seg: TcpSegment)
    requires Extends(s, s') && SentBy(s, gap, seg)
    ensures SentBy(s', gap, seg)
  {
    var a: nat :| SentAt(s, gap, seg, a);
    var more := s'.stream.accepted[|s.stream.accepted|..];
    assert s'.stream.accepted == s.stream.accepted + more;
    GenuineGrows(seg, a, s.stream.accepted, more, s.isn);
    assert SentAt(s', gap, seg, a);
  }

  // ----- what the sender sends -----

  /** A SYN in the queue is the first thing sent and carries `gap` bytes. */
  ghost predicate SynShape(seg: TcpSegment, gap: nat) {
    seg.header.syn ==> |seg.payload| == gap && (gap > 0 ==> !seg.header.fin)
  }

  ghost predicate AllSentBy(s: Sender, gap: nat, segs: seq<TcpSegment>) {
    forall k :: 0 <= k < |segs| ==> SentBy(s, gap, segs[k])
  }

  ghost predicate NoAcks(segs: seq<TcpSegment>) {
    forall k :: 0 <= k < |segs| ==> !segs[k].header.ack
  }

  lemma {:induction false} CutNoAcks(isn: u32, a: nat, syn: bool, fin: bool, data: seq<byte>)
    ensures NoAcks(Cut(isn, a, syn, fin, data))
    decreases |data|
  {
    if |data| > MAX_PAYLOAD_SIZE {
      var seg := Cut(isn, a, syn, fin, data)[0];
      CutNoAcks(isn, a + seg.LengthInSequenceSpace(), syn, fin, data[MAX_PAYLOAD_SIZE..]);
    }
  }

  lemma BurstNoAcks(s: Sender)
    requires s.stream.Valid()
    ensures NoAcks(Burst(s))
  {
    CutNoAcks(s.isn, s.next, !s.synAcked, s.SendsFin(), s.stream.Buffered()[..s.Readable()]);
  }

  /** Every segment of a tiling that starts at the SYN or past it was sent as the receiver expects. */
  lemma {:induction false} TilesSentBy(s: Sender, gap: nat, q: seq<Outstanding>, a: nat, k: nat)
    requires Tiles(q, a, s.next, s.stream.accepted, s.isn) && k < |q|
    requires if a == 0 then SynShape(q[0].seg, gap) else a > gap
    ensures SentBy(s, gap, q[k].seg)
    decreases |q|
  {
    var n := q[0].seg.LengthInSequenceSpace();
    TilesOrder(q[1..], a + n, s.next, s.stream.accepted, s.isn);
    if k == 0 {
      assert SentAt(s, gap, q[0].seg, a);
    } else {
      TilesSentBy(s, gap, q[1..], a + n, k - 1);
    }
  }

  /** How many bytes the SYN carried, known from the call that sends it. */
  function GapAfter(s: Sender, s': Sender, gap: nat): nat {
    if s.next == 0 then s'.stream.nread else gap
  }

  /** One call on the sender: the new state is linked as well, what it put out was sent by it, and what
      was sent before still counts as sent. */
  ghost predicate Carries(s: Sender, s': Sender, gap: nat) {
    && Extends(s, s') && s.out <= s'.out && AllSentBy(s', GapAfter(s, s', gap), s'.out[|s.out|..])
    && NoAcks(s'.out[|s.out|..])
    && Sending(s', GapAfter(s, s', gap)) && Advances(s, s')
    && Oldest(s') == Oldest(s)
  }

  lemma FirstBurst(s: Sender)
    requires AboutToSend(s) && s.next == 0 && s.window == 1
    ensures
      var s' := s.FillWindow();
      && |Burst(s)| == 1 && |s'.queue| == 1 && s'.queue[0].seg == Burst(s)[0] && Burst(s)[0].header.syn
      && |Burst(s)[0].payload| == s'.stream.nread <= 1 && (s'.stream.nread > 0 ==> !Burst(s)[0].header.fin)
  {
    SendsFromNext(s);
    TilesOrder(s.queue, Oldest(s), s.next, s.stream.accepted, s.isn);
  }

  lemma FillCarriesFirst(s: Sender, gap: nat)
    requires Sending(s, gap) && AboutToSend(s) && s.next == 0 && s.FillWindow().next < TWO_64
    ensures Carries(s, s.FillWindow(), gap)
  {
    FirstBurst(s);
    FillSendsLedger(s);
    BurstSent(s);
    BurstTiles(s);
    var s' := s.FillWindow();
    TilesOrder(s'.queue, Oldest(s'), s'.next, s'.stream.accepted, s'.isn);
    TilesSentBy(s', s'.stream.nread, s'.queue, 0, 0);
    BurstNoAcks(s);
    assert s'.out[|s.out|..] == Burst(s);
  }

  lemma FillCarriesLater(s: Sender, gap: nat)
    requires Sending(s, gap) && AboutToSend(s) && s.next > 0 && s.FillWindow().next < TWO_64
    ensures Carries(s, s.FillWindow(), gap)
  {
    hide Genuine, Cut, Wrap;
    SendsFromNext(s);
    FillSendsLedger(s);
    BurstSent(s);
    BurstTiles(s);
    var s' := s.FillWindow();
    assert s'.out[|s.out|..] == Burst(s);
    var q := Track(Burst(s), s.initialRto, s.lastTick);
    BurstNoAcks(s);
    forall k | 0 <= k < |Burst(s)| ensures SentBy(s', gap, Burst(s)[k]) {
      TilesSentBy(s', gap, q, s.next, k);
    }
  }

  lemma FillCarries(s: Sender, gap: nat)
    requires Sending(s, gap) && s.FillWindow().next < TWO_64
    ensures Carries(s, s.FillWindow(), gap)
  {
    if s.Remaining() > 0 && (s.synAcked || s.queue == []) {
      if s.NothingToSend() {
        NothingToSendReadsNothing(s);
      } else if s.next == 0 {
        FillCarriesFirst(s, gap);
      } else {
        FillCarriesLater(s, gap);
      }
    }
  }

  lemma TickCarries(s: Sender, gap: nat, ms: nat)
    requires Sending(s, gap)
    ensures Carries(s, s.Tick(ms), gap)
  {
    var s' := s.Tick(ms);
    TickKeeps(s, ms);
    TickSent(s, ms);
    if s.queue != [] {
      TilesOrder(s.queue, Oldest(s), s.next, s.stream.accepted, s.isn);
      TilesSentBy(s', gap, s'.queue, Oldest(s'), 0);
    }
  }

  lemma SendEmptyCarries(s: Sender, gap: nat)
    requires Sending(s, gap)
    ensures Carries(s, s.SendEmpty(), gap)
  {
    var s' := s.SendEmpty();
    assert SentAt(s', GapAfter(s, s', gap), s'.out[|s.out|], s.next);
  }

  lemma WriteCarries(s: Sender, gap: nat, data: seq<byte>)
    requires Sending(s, gap) && MayWrite(s, data)
    ensures Carries(s, Written(s, data), gap)
  {
    WriteKeeps(s, data);
  }

  lemma EndCarries(s: Sender, gap: nat)
    requires Sending(s, gap)
    ensures Carries(s, Ended(s), gap)
  {
  }

  /** What carries keeps the link to whatever the receiver is. */
  lemma CarriesKeepsLink(s: Sender, s': Sender, r: Receiver, gap: nat)
    requires Linked(s, r, gap) && Carries(s, s', gap)
    ensures Linked(s', r, GapAfter(s, s', gap))
  {
    if s.next > 0 {
      ReceivingAdvances(s, s', r, gap);
    }
  }

  /** ... and the standing of everything sent before. */
  lemma CarriesKeepsSent(s: Sender, s': Sender, gap: nat, seg: TcpSegment)
    requires Carries(s, s', gap) && SentBy(s, gap, seg)
    ensures SentBy(s', GapAfter(s, s', gap), seg)
  {
    SentByAdvances(s, s', gap, seg);
    if s.next == 0 {
      var a: nat :| SentAt(s, gap, seg, a);
      var b: nat :| SentAt(s', gap, seg, b);
      assert SentAt(s', s'.stream.nread, seg, b);
    }
  }

  // ----- an acknowledgment arrives -----

  /** `ackno` is one the receiver has given out, near the sender's next number. */
  ghost predicate AckNear(s: Sender, r: Receiver, ackno: u32) {
    exists b: nat :: AckGiven(r, ackno, b) && Distance(b, s.next) < TWO_31
  }

  ghost predicate AckGiven(r: Receiver, ackno: u32, b: nat) {
    r.isn.Some? && 1 <= b <= r.AckAbsolute() && ackno == Wrap(b, r.isn.value)
  }

  /** An acknowledgment, however old, keeps the link: only what the receiver has is taken off. */
  lemma AckKeepsLink(s: Sender, r: Receiver, gap: nat, ackno: u32, win: u16)
    requires Linked(s, r, gap) && AckNear(s, r, ackno)
    ensures Linked(s.AckReceived(ackno, win), r, gap)
    ensures Extends(s, s.AckReceived(ackno, win)) && s.AckReceived(ackno, win).out == s.out && s.next > 0
  {
    hide Unwrap, Wrap, Ledger, Sender.AcceptAck, Receiver.AckAbsolute, Faithful, Tape;
    var b: nat :| AckGiven(r, ackno, b) && Distance(b, s.next) < TWO_31;
    LinkedSafe(s, r, gap);
    UnwrapNear(b, s.isn, s.next);
    assert s.AckReceived(ackno, win) == s.AcceptAck(b, win);
    AcceptAckKeeps(s, b, win);
    AckSending(s, gap, b, win);
    AckReceiving(s, s.AcceptAck(b, win), r, gap);
  }

  lemma AckReceiving(s: Sender, s': Sender, r: Receiver, gap: nat)
    requires Receiving(s, r, gap) && s'.stream == s.stream && s'.next == s.next && s'.isn == s.isn
    ensures Receiving(s', r, gap)
  {
    hide Faithful, Tape;
  }

  lemma AckPlain(s: Sender, b: nat, win: u16)
    requires Plain(s.queue)
    ensures Plain(s.AcceptAck(b, win).queue)
  {
    hide Sender.PopAcked;
    PopAckedFrame(s.SetWindow(win), b);
  }

  lemma AckSending(s: Sender, gap: nat, b: nat, win: u16)
    requires Sending(s, gap) && s.next > 0
    ensures Sending(s.AcceptAck(b, win), gap)
  {
    hide Sender.AcceptAck, Genuine;
    AcceptAckKeeps(s, b, win);
    AckPlain(s, b, win);
    TilesOrder(s.queue, Oldest(s), s.next, s.stream.accepted, s.isn);
  }
}
