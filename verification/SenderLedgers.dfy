/** What holds of a sender over all its runs: the in-flight queue as a ledger of the sequence space. */
module SenderLedgers {
  import opened Types
  import opened WrappingIntegers
  import opened ByteStreams
  import opened TcpSegments
  import opened TcpSenders

  /** `seg` is what a sender of `bytes` puts at absolute number `a`: number 0 is the SYN, number k+1
      is byte k, and the FIN follows the last byte. */
  ghost predicate Genuine(seg: TcpSegment, a: nat, bytes: seq<byte>, isn: u32) {
    var h, n := seg.header, seg.LengthInSequenceSpace();
    var first := if h.syn then a else a - 1;
    && h.seqno == Wrap(a, isn)
    && (n > 0 ==> (h.syn <==> a == 0))
    && (seg.payload != [] ==>
          0 <= first && first + |seg.payload| <= |bytes| && seg.payload == bytes[first..first + |seg.payload|])
    && (h.fin ==> a + n == |bytes| + 2)
  }

  /** The queue covers `a..end` without gap or overlap, every segment genuine where it lies. */
  ghost predicate Tiles(q: seq<Outstanding>, a: nat, end: nat, bytes: seq<byte>, isn: u32) {
    if q == [] then a == end
    else
      var n := q[0].seg.LengthInSequenceSpace();
      n > 0 && Genuine(q[0].seg, a, bytes, isn) && Tiles(q[1..], a + n, end, bytes, isn)
  }

  /** The number of the oldest position not acknowledged. */
  ghost function Oldest(s: Sender): int {
    s.next - s.inFlight
  }

  predicate FinSent(s: Sender) {
    s.next == s.stream.nread + 2
  }

  ghost predicate Ledger(s: Sender) {
    && s.stream.Valid()
    && 1 <= s.window <= 0xffff
    && 0 <= s.inFlight <= 0xffff && s.inFlight <= s.next
    && Tiles(s.queue, Oldest(s), s.next, s.stream.accepted, s.isn)
    && (s.next == 0 ==> s.stream.nread == 0)
    && (s.next > 0 ==> s.next == s.stream.nread + 1 || (FinSent(s) && s.stream.Eof()))
    && (s.synAcked <==> Oldest(s) > 0)
    && (s.next > 0 && !s.synAcked ==> |s.queue| == 1)
    && (s.finAcked <==> FinSent(s) && s.inFlight == 0)
  }

  lemma NewSenderLedger(capacity: nat, retxTimeout: u16, isn: u32)
    ensures Ledger(NewSender(capacity, retxTimeout, isn))
  {
  }

  // ----- the queue -----

  /** Genuine segments stay genuine while the application appends bytes; one with FIN needs the stream
      to be complete. */
  lemma GenuineGrows(seg: TcpSegment, a: nat, bytes: seq<byte>, more: seq<byte>, isn: u32)
    requires Genuine(seg, a, bytes, isn) && (more != [] ==> a + seg.LengthInSequenceSpace() <= |bytes| + 1)
    ensures Genuine(seg, a, bytes + more, isn)
  {
    assert more == [] ==> bytes + more == bytes;
  }

  lemma {:induction false} TilesGrows(q: seq<Outstanding>, a: nat, end: nat, bytes: seq<byte>, more: seq<byte>,
                                      isn: u32)
    requires Tiles(q, a, end, bytes, isn) && (more != [] ==> end <= |bytes| + 1)
    ensures Tiles(q, a, end, bytes + more, isn)
  {
    if q != [] {
      var n := q[0].seg.LengthInSequenceSpace();
      TilesOrder(q[1..], a + n, end, bytes, isn);
      GenuineGrows(q[0].seg, a, bytes, more, isn);
      TilesGrows(q[1..], a + n, end, bytes, more, isn);
    }
  }

  lemma {:induction false} TilesOrder(q: seq<Outstanding>, a: nat, end: nat, bytes: seq<byte>, isn: u32)
    requires Tiles(q, a, end, bytes, isn)
    ensures a <= end && (q != [] <==> a < end)
  {
    if q != [] {
      TilesOrder(q[1..], a + q[0].seg.LengthInSequenceSpace(), end, bytes, isn);
    }
  }

  lemma {:induction false} TilesAppend(q: seq<Outstanding>, r: seq<Outstanding>, a: nat, mid: nat, end: nat,
                                       bytes: seq<byte>, isn: u32)
    requires Tiles(q, a, mid, bytes, isn) && Tiles(r, mid, end, bytes, isn)
    ensures Tiles(q + r, a, end, bytes, isn)
  {
    if q == [] {
      assert q + r == r;
    } else {
      assert (q + r)[1..] == q[1..] + r;
      TilesAppend(q[1..], r, a + q[0].seg.LengthInSequenceSpace(), mid, end, bytes, isn);
    }
  }

  /** The last segment in flight has the FIN exactly when the ledger runs past the last byte. */
  lemma {:induction false} LastHasFin(q: seq<Outstanding>, a: nat, end: nat, bytes: seq<byte>, isn: u32)
    requires Tiles(q, a, end, bytes, isn) && q != [] && end <= |bytes| + 2
    ensures q[|q| - 1].seg.header.fin <==> end == |bytes| + 2
  {
    var n := q[0].seg.LengthInSequenceSpace();
    if |q| == 1 {
      assert q[1..] == [];
    } else {
      assert q[1..][|q[1..]| - 1] == q[|q| - 1];
      LastHasFin(q[1..], a + n, end, bytes, isn);
    }
  }

  // ----- fill_window -----

  /** `data` lies in `bytes` where a segment at number `a` expects it; FIN only at the very end. */
  ghost predicate Placed(a: nat, syn: bool, fin: bool, data: seq<byte>, bytes: seq<byte>) {
    var first := if syn then a else a - 1;
    && (syn <==> a == 0)
    && first + |data| <= |bytes| && data == bytes[first..first + |data|]
    && (fin ==> first + |data| == |bytes|)
  }

  lemma PlacedSplit(a: nat, fin: bool, data: seq<byte>, bytes: seq<byte>, k: nat)
    requires Placed(a, false, fin, data, bytes) && k < |data|
    ensures Placed(a, false, false, data[..k], bytes) && Placed(a + k, false, fin, data[k..], bytes)
  {
  }

  lemma PlacedGenuine(isn: u32, a: nat, syn: bool, fin: bool, data: seq<byte>, bytes: seq<byte>)
    requires Placed(a, syn, fin, data, bytes)
    ensures Genuine(TcpSegment(DEFAULT_HEADER.(seqno := Wrap(a, isn), syn := syn, fin := fin), data), a, bytes, isn)
  {
  }

  lemma TilesCons(seg: TcpSegment, more: seq<TcpSegment>, a: nat, end: nat, bytes: seq<byte>, isn: u32, rto: nat,
                  time: nat)
    requires seg.LengthInSequenceSpace() > 0 && Genuine(seg, a, bytes, isn)
    requires Tiles(Track(more, rto, time), a + seg.LengthInSequenceSpace(), end, bytes, isn)
    ensures Tiles(Track([seg] + more, rto, time), a, end, bytes, isn)
    ensures SpanOf([seg] + more) == seg.LengthInSequenceSpace() + SpanOf(more)
  {
    TrackCons(seg, more, rto, time);
    assert Track([seg] + more, rto, time)[1..] == Track(more, rto, time);
    assert ([seg] + more)[1..] == more;
  }

  /** The segments cut from `data` tile its place in the sequence space. */
  lemma {:induction false} CutTiles(isn: u32, a: nat, syn: bool, fin: bool, data: seq<byte>, bytes: seq<byte>,
                                    rto: nat, time: nat)
    requires Placed(a, syn, fin, data, bytes)
    requires syn ==> |data| <= MAX_PAYLOAD_SIZE
    requires syn || fin || data != []
    ensures
      var n, segs := |data| + (if syn then 1 else 0) + (if fin then 1 else 0), Cut(isn, a, syn, fin, data);
      SpanOf(segs) == n && Tiles(Track(segs, rto, time), a, a + n, bytes, isn)
    decreases |data|
  {
    hide Genuine, Placed, Track, Tiles, Wrap;
    var header := DEFAULT_HEADER.(seqno := Wrap(a, isn), syn := syn);
    if |data| <= MAX_PAYLOAD_SIZE {
      PlacedGenuine(isn, a, syn, fin, data, bytes);
      var seg := TcpSegment(header.(fin := fin), data);
      assert Cut(isn, a, syn, fin, data) == [seg] + [];
      TilesCons(seg, [], a, a + seg.LengthInSequenceSpace(), bytes, isn, rto, time);
    } else {
      var seg, rest := TcpSegment(header, data[..MAX_PAYLOAD_SIZE]), data[MAX_PAYLOAD_SIZE..];
      PlacedSplit(a, fin, data, bytes, MAX_PAYLOAD_SIZE);
      PlacedGenuine(isn, a, false, false, data[..MAX_PAYLOAD_SIZE], bytes);
      CutTiles(isn, a + MAX_PAYLOAD_SIZE, false, fin, rest, bytes, rto, time);
      var end := a + |data| + if fin then 1 else 0;
      TilesCons(seg, Cut(isn, a + MAX_PAYLOAD_SIZE, false, fin, rest), a, end, bytes, isn, rto, time);
    }
  }

  /** The exception of `fill_window` cannot occur. */
  lemma FillNeverThrows(s: Sender)
    requires Ledger(s)
    ensures !s.FillThrows() && (s.synAcked || s.queue == [] || s.queue[0].seg.header.syn)
  {
  }

  /** When nothing is sent, reading did not lose anything either. */
  lemma NothingToSendReadsNothing(s: Sender)
    requires Ledger(s) && s.Remaining() > 0 && (s.synAcked || s.queue == []) && s.NothingToSend()
    ensures s.synAcked && s.FillWindow() == s
  {
    TilesOrder(s.queue, Oldest(s), s.next, s.stream.accepted, s.isn);
    if s.queue != [] {
      LastHasFin(s.queue, Oldest(s), s.next, s.stream.accepted, s.isn);
    }
  }

  /** When something is sent, it starts at the first byte not yet sent and no FIN went out before. */
  lemma SendsFromNext(s: Sender)
    requires AboutToSend(s)
    ensures !FinSent(s) && (s.synAcked <==> s.next > 0) && (s.next > 0 ==> s.next == s.stream.nread + 1)
  {
    TilesOrder(s.queue, Oldest(s), s.next, s.stream.accepted, s.isn);
    if s.queue != [] {
      LastHasFin(s.queue, Oldest(s), s.next, s.stream.accepted, s.isn);
    }
  }

  /** What goes out with the SYN fits in one segment. Every segment cut with the SYN carries it. */
  predicate FirstFits(s: Sender)
    requires s.stream.Valid()
  {
    s.next > 0 || s.Readable() <= MAX_PAYLOAD_SIZE
  }

  /** `fill_window` is about to read the stream and send. */
  ghost predicate AboutToSend(s: Sender) {
    Ledger(s) && FirstFits(s) && s.Remaining() > 0 && (s.synAcked || s.queue == []) && !s.NothingToSend()
  }

  ghost function Burst(s: Sender): seq<TcpSegment>
    requires s.stream.Valid()
  {
    Cut(s.isn, s.next, !s.synAcked, s.SendsFin(), s.stream.Buffered()[..s.Readable()])
  }

  ghost function BurstSpan(s: Sender): nat
    requires s.stream.Valid()
  {
    s.Readable() + (if s.synAcked then 0 else 1) + (if s.SendsFin() then 1 else 0)
  }

  lemma BurstTiles(s: Sender)
    requires AboutToSend(s)
    ensures
      var q := Track(Burst(s), s.initialRto, s.lastTick);
      && SpanOf(Burst(s)) == BurstSpan(s)
      && Tiles(q, s.next, s.next + BurstSpan(s), s.stream.accepted, s.isn)
      && Tiles(s.queue + q, Oldest(s), s.next + BurstSpan(s), s.stream.accepted, s.isn)
  {
    hide Genuine, Placed, Track, Tiles, Wrap, Cut;
    BurstPlaced(s);
    CutTiles(s.isn, s.next, !s.synAcked, s.SendsFin(), s.stream.Buffered()[..s.Readable()], s.stream.accepted,
        s.initialRto, s.lastTick);
    var q := Track(Burst(s), s.initialRto, s.lastTick);
    TilesAppend(s.queue, q, Oldest(s), s.next, s.next + BurstSpan(s), s.stream.accepted, s.isn);
  }

  lemma BurstPlaced(s: Sender)
    requires AboutToSend(s)
    ensures Placed(s.next, !s.synAcked, s.SendsFin(), s.stream.Buffered()[..s.Readable()], s.stream.accepted)
    ensures !s.synAcked ==> s.Readable() <= MAX_PAYLOAD_SIZE
    ensures !s.synAcked || s.SendsFin() || s.Readable() > 0
  {
    SendsFromNext(s);
    assert s.stream.Buffered()[..s.Readable()] == s.stream.accepted[s.stream.nread..s.stream.nread + s.Readable()];
  }

  lemma FillSendsLedger(s: Sender)
    requires AboutToSend(s)
    ensures Ledger(s.FillWindow())
    ensures s.FillWindow().out == s.out + Burst(s)
  {
    hide Genuine, Tiles, Wrap;
    BurstTiles(s);
    SendsFromNext(s);
    TilesOrder(s.queue, Oldest(s), s.next, s.stream.accepted, s.isn);
  }

  lemma FirstFill(s: Sender)
    requires Ledger(s) && s.next == 0
    ensures s.queue == [] && Oldest(s) == 0 && !s.synAcked && !s.NothingToSend() && s.Remaining() > 0
    ensures
      var s' := s.FillWindow();
      && s'.queue == Track(Burst(s), s.initialRto, s.lastTick)
      && s'.next == SpanOf(Burst(s)) && Oldest(s') == 0 && s'.out == s.out + Burst(s)
  {
    hide Cut, Tiles, Genuine, Wrap, SpanOf;
    TilesOrder(s.queue, Oldest(s), s.next, s.stream.accepted, s.isn);
  }

  lemma FirstBurstFits(s: Sender)
    requires Ledger(s) && s.next == 0 && FirstFits(s)
    ensures |Burst(s)| == 1 && Burst(s)[0].header.syn
    ensures Tiles(Track(Burst(s), s.initialRto, s.lastTick), 0, SpanOf(Burst(s)), s.stream.accepted, s.isn)
  {
    hide Tiles, Genuine, Wrap;
    FirstFill(s);
    BurstTiles(s);
  }

  /** The segments that a first call of `fill_window` sends tile their numbers, and exactly one of them
      has the SYN, if and only if what goes out with it fits in one segment. */
  lemma FirstBurstTiles(s: Sender)
    requires Ledger(s) && s.next == 0
    ensures Tiles(s.FillWindow().queue, 0, s.FillWindow().next, s.stream.accepted, s.isn) <==> FirstFits(s)
    ensures (forall k :: 0 <= k < |Burst(s)| ==> (Burst(s)[k].header.syn <==> k == 0)) <==> FirstFits(s)
  {
    hide Wrap, Cut, Tiles, Genuine, Sender.FillWindow, SpanOf;
    FirstFill(s);
    if FirstFits(s) {
      FirstBurstFits(s);
    } else {
      CutRepeatsSyn(s.isn, s.SendsFin(), s.stream.Buffered()[..s.Readable()]);
      SynNotGenuineLater(Track(Burst(s), s.initialRto, s.lastTick), s.FillWindow().next, s.stream.accepted, s.isn);
    }
  }

  /** The first segment: the SYN with what waits, up to the window, and with the FIN exactly if that is all
      there will be and the window has room for it. */
  lemma FirstSegmentExactly(s: Sender)
    requires Ledger(s) && s.next == 0 && FirstFits(s)
    ensures
      var s', o := s.FillWindow(), s.stream;
      && |s'.out| == |s.out| + 1 && s.out <= s'.out
      && var seg := s'.out[|s.out|];
         && seg.header.seqno == s.isn && seg.header.syn && seg.payload == o.accepted[..Min(s.window, |o.accepted|)]
         && (seg.header.fin <==> o.ended && !o.plugged && |o.accepted| < s.window)
  {
    FirstFill(s);
    assert s.stream.Buffered() == s.stream.accepted;
  }

  lemma CutRepeatsSyn(isn: u32, fin: bool, data: seq<byte>)
    requires |data| > MAX_PAYLOAD_SIZE
    ensures var segs := Cut(isn, 0, true, fin, data); |segs| > 1 && segs[0].header.syn && segs[1].header.syn
  {
    var rest := data[MAX_PAYLOAD_SIZE..];
    assert Cut(isn, MAX_PAYLOAD_SIZE + 1, true, fin, rest)[0].header.syn;
  }

  lemma SynNotGenuineLater(q: seq<Outstanding>, end: nat, bytes: seq<byte>, isn: u32)
    requires |q| > 1 && q[1].seg.header.syn
    ensures !Tiles(q, 0, end, bytes, isn)
  {
    assert q[1..][0] == q[1];
  }

  /** The ledger survives `fill_window` if and only if what goes out with the SYN fits in one segment. */
  lemma FillKeeps(s: Sender)
    requires Ledger(s)
    ensures Ledger(s.FillWindow()) <==> FirstFits(s)
  {
    hide Cut, Genuine, Wrap;
    if !FirstFits(s) {
      FirstFill(s);
      FirstBurstTiles(s);
    } else if s.Remaining() > 0 && (s.synAcked || s.queue == []) {
      if s.NothingToSend() {
        NothingToSendReadsNothing(s);
      } else {
        FillSendsLedger(s);
      }
    }
  }

  /** Where it does not: an acknowledgment of the initial number that comes before the SYN is out opens
      the window, more than a segment of data waits, and the SYN goes out twice, at two numbers. */
  lemma EarlyAckRepeatsSyn(capacity: nat, retxTimeout: u16, isn: u32, data: seq<byte>, win: u16) returns (s: Sender)
    requires MAX_PAYLOAD_SIZE < |data| <= capacity && win > MAX_PAYLOAD_SIZE
    ensures s == Written(NewSender(capacity, retxTimeout, isn), data).AckReceived(isn, win).FillWindow()
    ensures |s.out| > 1 && s.out[0].header.syn && s.out[1].header.syn && !Ledger(s)
  {
    hide Unwrap, Cut;
    UnwrapFirst(isn);
    var w := Written(NewSender(capacity, retxTimeout, isn), data).SetWindow(win);
    assert Written(NewSender(capacity, retxTimeout, isn), data).AckReceived(isn, win) == w;
    s := w.FillWindow();
    assert Ledger(w) && !FirstFits(w);
    FirstFill(w);
    CutRepeatsSyn(isn, w.SendsFin(), w.stream.Buffered()[..w.Readable()]);
    FillKeeps(w);
  }

  /** How data is cut: full segments, then one of at most full size; FIN on that one only. */
  lemma {:induction false} CutShape(isn: u32, a: nat, syn: bool, fin: bool, data: seq<byte>, k: nat)
    requires k < |Cut(isn, a, syn, fin, data)|
    ensures
      var segs := Cut(isn, a, syn, fin, data);
      && (k < |segs| - 1 ==> |segs[k].payload| == MAX_PAYLOAD_SIZE && !segs[k].header.fin)
      && (k == |segs| - 1 ==> |segs[k].payload| <= MAX_PAYLOAD_SIZE && segs[k].header.fin == fin)
    decreases |data|
  {
    if |data| > MAX_PAYLOAD_SIZE && k > 0 {
      var seg := Cut(isn, a, syn, fin, data)[0];
      CutShape(isn, a + seg.LengthInSequenceSpace(), syn, fin, data[MAX_PAYLOAD_SIZE..], k - 1);
    }
  }

  /** Every byte written has been sent, and if no more will come, the FIN too. */
  predicate AllOut(s: Sender) {
    s.stream.nread == |s.stream.accepted| && (s.stream.ended && !s.stream.plugged ==> FinSent(s))
  }

  /** What `fill_window` achieves once the SYN is acknowledged. It never overfills the window, and on
      return the window is full, or every byte is sent and an ended stream has had its FIN sent. New
      segments are full-sized but for the last, which alone may carry the FIN, and after a FIN there
      are none. */
  lemma FillWindowFills(s: Sender)
    requires Ledger(s) && s.synAcked
    ensures
      var s', old' := s.FillWindow(), |s.out|;
      && s'.inFlight <= Max(s.window, s.inFlight)
      && (s'.inFlight >= s'.window || AllOut(s'))
      && s.out <= s'.out
      && (FinSent(s) ==> s'.out == s.out)
      && (forall k :: old' <= k < |s'.out| - 1 ==> |s'.out[k].payload| == 1000 && !s'.out[k].header.fin)
      && (|s'.out| > old' ==> |s'.out[|s'.out| - 1].payload| <= 1000)
      && (FinSent(s') && !FinSent(s) <==> |s'.out| > old' && s'.out[|s'.out| - 1].header.fin)
  {
    if s.Remaining() > 0 {
      if s.NothingToSend() {
        NothingToSendReadsNothing(s);
        FillNothing(s);
      } else {
        FillBurst(s);
      }
    }
  }

  lemma FillNothing(s: Sender)
    requires Ledger(s) && s.synAcked && s.Remaining() > 0 && s.NothingToSend()
    ensures AllOut(s)
  {
    NothingToSendReadsNothing(s);
    TilesOrder(s.queue, Oldest(s), s.next, s.stream.accepted, s.isn);
    if s.queue != [] {
      LastHasFin(s.queue, Oldest(s), s.next, s.stream.accepted, s.isn);
    }
  }

  lemma FillBurst(s: Sender)
    requires AboutToSend(s) && s.synAcked
    ensures
      var s', old' := s.FillWindow(), |s.out|;
      && s'.inFlight <= s.window
      && (s'.inFlight >= s'.window || AllOut(s'))
      && !FinSent(s) && s'.out == s.out + Burst(s) && Burst(s) != []
      && (forall k :: old' <= k < |s'.out| - 1 ==> |s'.out[k].payload| == 1000 && !s'.out[k].header.fin)
      && |s'.out[|s'.out| - 1].payload| <= 1000
      && (FinSent(s') <==> s'.out[|s'.out| - 1].header.fin)
  {
    SendsFromNext(s);
    BurstTiles(s);
    FillSendsLedger(s);
    var data := s.stream.Buffered()[..s.Readable()];
    forall k | 0 <= k < |Burst(s)|
      ensures k < |Burst(s)| - 1 ==> |Burst(s)[k].payload| == MAX_PAYLOAD_SIZE && !Burst(s)[k].header.fin
      ensures k == |Burst(s)| - 1 ==>
        |Burst(s)[k].payload| <= MAX_PAYLOAD_SIZE && Burst(s)[k].header.fin == s.SendsFin()
    {
      CutShape(s.isn, s.next, !s.synAcked, s.SendsFin(), data, k);
    }
  }

  // ----- ack_received -----

  /** The wrapped number in the queue stands for the true one, because little is in flight. */
  lemma FrontNumber(s: Sender)
    requires Ledger(s) && s.queue != [] && s.next < TWO_64
    ensures Unwrap(s.queue[0].seg.header.seqno, s.isn, s.next) == Oldest(s)
  {
    hide Unwrap;
    UnwrapWrapRoundTrip(Oldest(s), s.isn, s.next);
  }

  lemma FrontAckedExact(s: Sender, ack: nat)
    requires Ledger(s) && s.next < TWO_64
    ensures s.FrontAcked(ack) <==> s.queue != [] && Oldest(s) + s.queue[0].seg.LengthInSequenceSpace() <= ack
  {
    if s.queue != [] {
      FrontNumber(s);
    }
  }

  lemma PopFrontKeeps(s: Sender)
    requires Ledger(s) && s.queue != []
    ensures Ledger(s.PopFront())
  {
    var n, bytes := s.queue[0].seg.LengthInSequenceSpace(), s.stream.accepted;
    TilesOrder(s.queue[1..], Oldest(s) + n, s.next, bytes, s.isn);
    if |s.queue| == 1 {
      LastHasFin(s.queue, Oldest(s), s.next, bytes, s.isn);
    }
  }

  /** Popping touches only the queue, what is counted from it, and the two flags. */
  lemma {:induction false} PopAckedFrame(s: Sender, ack: nat)
    ensures
      var s' := s.PopAcked(ack);
      && s' == s.(retransmissions := s'.retransmissions, synAcked := s'.synAcked, finAcked := s'.finAcked,
                  inFlight := s'.inFlight, queue := s'.queue)
      && |s'.queue| <= |s.queue| && s'.queue == s.queue[|s.queue| - |s'.queue|..]
      && (|s'.queue| == |s.queue| ==> s' == s) && (|s'.queue| < |s.queue| ==> s'.retransmissions == 0)
    decreases |s.queue|
  {
    if s.FrontAcked(ack) {
      PopAckedFrame(s.PopFront(), ack);
    }
  }

  /** Popping removes exactly the segments that end at or before `ack`: the oldest number moves up, to
      `ack` at most, and stops where the next segment would end beyond it. */
  lemma {:induction false} PopAckedExact(s: Sender, ack: nat)
    requires Ledger(s) && s.next < TWO_64
    ensures Ledger(s.PopAcked(ack))
    ensures
      var s' := s.PopAcked(ack);
      && Oldest(s) <= Oldest(s') <= Max(Oldest(s), ack)
      && (s'.queue != [] ==> Oldest(s') + s'.queue[0].seg.LengthInSequenceSpace() > ack)
      && (s' == s || (s.queue != [] && Oldest(s') >= Oldest(s) + s.queue[0].seg.LengthInSequenceSpace() > Oldest(s)))
    decreases |s.queue|
  {
    FrontAckedExact(s, ack);
    if s.FrontAcked(ack) {
      PopFrontKeeps(s);
      PopAckedExact(s.PopFront(), ack);
    }
  }

  lemma TilesTimer(q: seq<Outstanding>, a: nat, end: nat, bytes: seq<byte>, isn: u32, head: Outstanding)
    requires q != [] && head.seg == q[0].seg
    ensures Tiles(q[0 := head], a, end, bytes, isn) == Tiles(q, a, end, bytes, isn)
  {
    assert q[0 := head][1..] == q[1..];
  }

  lemma RestartKeeps(s: Sender)
    requires Ledger(s) && s.queue != []
    ensures Ledger(s.RestartTimer()) && Oldest(s.RestartTimer()) == Oldest(s)
    ensures s.RestartTimer().queue[0].seg == s.queue[0].seg
  {
    TilesTimer(s.queue, Oldest(s), s.next, s.stream.accepted, s.isn,
        s.queue[0].(rto := s.initialRto, time := s.lastTick));
  }

  lemma SetWindowKeeps(s: Sender, win: u16)
    requires Ledger(s)
    ensures Ledger(s.SetWindow(win)) && Oldest(s.SetWindow(win)) == Oldest(s)
  {
  }

  /** What `s'` is after an acknowledgment of everything before `ack`: the oldest number moved up, to
      `ack` at most, past every segment that ends there; nothing else the ledger counts has changed. */
  ghost predicate AckedUpTo(s: Sender, s': Sender, ack: nat) {
    && s'.next == s.next && s'.stream == s.stream && s'.isn == s.isn && s'.out == s.out
    && Oldest(s) <= Oldest(s') <= Max(Oldest(s), ack)
    && (s'.queue != [] ==> Oldest(s') + s'.queue[0].seg.LengthInSequenceSpace() > ack)
    && (|| (s'.queue == s.queue && Oldest(s') == Oldest(s))
        || (s.queue != [] && Oldest(s') >= Oldest(s) + s.queue[0].seg.LengthInSequenceSpace() > Oldest(s)))
  }

  lemma PopAckedMoves(s: Sender, win: u16, ack: nat)
    requires Ledger(s) && s.next < TWO_64
    ensures Ledger(s.SetWindow(win).PopAcked(ack)) && AckedUpTo(s, s.SetWindow(win).PopAcked(ack), ack)
  {
    hide Ledger, Sender.PopAcked;
    SetWindowKeeps(s, win);
    PopAckedExact(s.SetWindow(win), ack);
    PopAckedFrame(s.SetWindow(win), ack);
  }

  lemma RestartMoves(s: Sender, s': Sender, ack: nat)
    requires Ledger(s') && AckedUpTo(s, s', ack) && s'.queue != [] && |s'.queue| < |s.queue|
    ensures Ledger(s'.RestartTimer()) && AckedUpTo(s, s'.RestartTimer(), ack)
  {
    hide Ledger;
    RestartKeeps(s');
  }

  lemma AcceptAckKeeps(s: Sender, ack: nat, win: u16)
    requires Ledger(s) && s.next < TWO_64
    ensures Ledger(s.AcceptAck(ack, win)) && AckedUpTo(s, s.AcceptAck(ack, win), ack)
  {
    hide Ledger, Sender.PopAcked, AckedUpTo;
    PopAckedMoves(s, win, ack);
    var s' := s.SetWindow(win).PopAcked(ack);
    if s'.queue != [] && |s'.queue| < |s.queue| {
      RestartMoves(s, s', ack);
    }
  }

  /** A repeated or older acknowledgment only sets the window. */
  lemma OldAckOnlySetsWindow(s: Sender, ack: nat, win: u16)
    requires Ledger(s) && s.next < TWO_64 && ack <= Oldest(s)
    ensures s.AcceptAck(ack, win) == s.SetWindow(win)
  {
    FrontAckedExact(s, ack);
    var w := s.SetWindow(win);
    assert w.FrontAcked(ack) == s.FrontAcked(ack) == false;
  }

  /** What an acknowledgment of number `b` does, near enough to be told apart: beyond the next number nothing;
      else it takes off what it covers, sets the window, to one in place of zero, and notes that it was zero. */
  lemma AckExactly(s: Sender, b: u64, win: u16)
    requires Ledger(s) && s.next < TWO_64 && Distance(b, s.next) < TWO_31
    ensures
      var s' := s.AckReceived(Wrap(b, s.isn), win);
      if b > s.next then s' == s
      else AckedUpTo(s, s', b) && s'.window == Max(1, win) && (s'.windowZero <==> win == 0)
  {
    hide Unwrap, Wrap, Ledger, AckedUpTo, Sender.PopAcked;
    UnwrapNear(b, s.isn, s.next);
    AcceptAckKeeps(s, b, win);
    PopAckedFrame(s.SetWindow(win), b);
  }

  /** The ledger survives any acknowledgment of anything at any time. */
  lemma AckKeeps(s: Sender, ackno: u32, win: u16)
    requires Ledger(s) && s.next < TWO_64
    ensures Ledger(s.AckReceived(ackno, win))
  {
    hide Ledger, Unwrap, Sender.AcceptAck;
    AcceptAckKeeps(s, Unwrap(ackno, s.isn, s.next), win);
  }

  // ----- the other calls -----

  function Written(s: Sender, data: seq<byte>): Sender
    requires s.stream.Valid()
  {
    s.(stream := s.stream.Write(data))
  }

  function Ended(s: Sender): Sender {
    s.(stream := s.stream.EndInput())
  }

  /** The stream does not refuse writes after its end; they do no harm until the FIN is out. */
  predicate MayWrite(s: Sender, data: seq<byte>) {
    data == [] || !FinSent(s)
  }

  /** The ledger survives a write if and only if the FIN has not been sent or nothing is written. */
  lemma WriteKeeps(s: Sender, data: seq<byte>)
    requires Ledger(s)
    ensures Ledger(Written(s, data)) <==> MayWrite(s, data)
  {
    if data != [] && MayWrite(s, data) {
      var taken := data[..Min(|data|, s.stream.RemainingCapacity())];
      TilesGrows(s.queue, Oldest(s), s.next, s.stream.accepted, taken, s.isn);
    }
  }

  lemma EndKeeps(s: Sender)
    requires Ledger(s)
    ensures Ledger(Ended(s))
  {
  }

  /** A tick re-sends the oldest segment, unchanged, exactly when its time is up. */
  lemma TickKeeps(s: Sender, ms: nat)
    requires Ledger(s)
    ensures Ledger(s.Tick(ms)) && Oldest(s.Tick(ms)) == Oldest(s)
    ensures s.Tick(ms).out == s.out + if s.queue != [] && s.queue[0].time + s.queue[0].rto <= s.lastTick + ms
      then [s.queue[0].seg] else []
  {
    if s.queue != [] {
      TilesTimer(s.queue, Oldest(s), s.next, s.stream.accepted, s.isn,
                 s.queue[0].(rto := if s.windowZero then s.queue[0].rto else s.queue[0].rto * 2,
                     time := s.lastTick + ms));
    }
  }

  // ----- what has been sent -----

  /** `seg` is genuine at a place all of whose numbers have been used. */
  ghost predicate Sent(s: Sender, seg: TcpSegment) {
    exists a: nat :: Genuine(seg, a, s.stream.accepted, s.isn) && a + seg.LengthInSequenceSpace() <= s.next
  }

  ghost predicate AllSent(s: Sender, segs: seq<TcpSegment>) {
    forall k :: 0 <= k < |segs| ==> Sent(s, segs[k])
  }

  /** `s'` is a later state of the same sender. */
  ghost predicate Extends(s: Sender, s': Sender) {
    && s'.isn == s.isn && s.next <= s'.next && s.stream.accepted <= s'.stream.accepted
    && (s.stream.accepted != s'.stream.accepted ==> s.next <= |s.stream.accepted| + 1)
  }

  lemma SentGrows(s: Sender, s': Sender, seg: TcpSegment)
    requires Extends(s, s') && Sent(s, seg)
    ensures Sent(s', seg)
  {
    var a: nat :| Genuine(seg, a, s.stream.accepted, s.isn) && a + seg.LengthInSequenceSpace() <= s.next;
    var more := s'.stream.accepted[|s.stream.accepted|..];
    assert s'.stream.accepted == s.stream.accepted + more;
    GenuineGrows(seg, a, s.stream.accepted, more, s.isn);
  }

  lemma {:induction false} TilesSent(q: seq<Outstanding>, a: nat, end: nat, bytes: seq<byte>, isn: u32, k: nat)
    requires Tiles(q, a, end, bytes, isn) && k < |q|
    ensures exists b: nat :: Genuine(q[k].seg, b, bytes, isn) && b + q[k].seg.LengthInSequenceSpace() <= end
  {
    var n := q[0].seg.LengthInSequenceSpace();
    TilesOrder(q[1..], a + n, end, bytes, isn);
    if k > 0 {
      TilesSent(q[1..], a + n, end, bytes, isn, k - 1);
    }
  }

  /** Everything `fill_window` adds to the output queue is genuine. */
  lemma FillSent(s: Sender)
    requires Ledger(s) && FirstFits(s)
    ensures var s' := s.FillWindow(); Extends(s, s') && s.out <= s'.out && AllSent(s', s'.out[|s.out|..])
  {
    if s.Remaining() > 0 && (s.synAcked || s.queue == []) {
      if s.NothingToSend() {
        NothingToSendReadsNothing(s);
      } else {
        BurstSent(s);
      }
    }
  }

  lemma BurstSent(s: Sender)
    requires AboutToSend(s)
    ensures var s' := s.FillWindow(); s'.out == s.out + Burst(s) && Extends(s, s') && AllSent(s', Burst(s))
  {
    BurstTiles(s);
    FillSendsLedger(s);
    var q := Track(Burst(s), s.initialRto, s.lastTick);
    forall k | 0 <= k < |q| ensures Sent(s.FillWindow(), Burst(s)[k]) {
      TilesSent(q, s.next, s.next + BurstSpan(s), s.stream.accepted, s.isn, k);
    }
  }

  lemma TickSent(s: Sender, ms: nat)
    requires Ledger(s)
    ensures var s' := s.Tick(ms); Extends(s, s') && s.out <= s'.out && AllSent(s', s'.out[|s.out|..])
  {
    if s.queue != [] {
      TilesSent(s.queue, Oldest(s), s.next, s.stream.accepted, s.isn, 0);
      assert Sent(s.Tick(ms), s.queue[0].seg);
    }
  }

  lemma SendEmptySent(s: Sender)
    ensures var s' := s.SendEmpty(); Extends(s, s') && s.out <= s'.out && AllSent(s', s'.out[|s.out|..])
    ensures
      var s' := s.SendEmpty();
      && |s'.out| == |s.out| + 1 && s'.out[|s.out|].header.seqno == Wrap(s.next, s.isn)
      && s'.out[|s.out|].LengthInSequenceSpace() == 0
  {
    var seg := s.SendEmpty().out[|s.out|];
    assert Genuine(seg, s.next, s.stream.accepted, s.isn);
  }
}
