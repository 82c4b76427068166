/** The sorted list of byte intervals that wait for reassembly. */
module BufferStrings {
  import opened Types

  /** The bytes `data` at stream indices `start..End()`. */
  datatype Piece = Piece(start: nat, data: seq<byte>, eof: bool)
  {
    function End(): nat {
      start + |data|
    }

    function ByteAt(i: nat): Option<byte> {
      if start <= i < End() then Some(data[i - start]) else None
    }
  }

  /** Neighbours leave at least one index between them. */
  ghost predicate Sorted(list: seq<Piece>) {
    forall i, j :: 0 <= i < j < |list| ==> list[i].End() < list[j].start
  }

  /** The meaning of a list: which byte it holds at which index. */
  ghost function ByteAt(list: seq<Piece>, i: nat): Option<byte> {
    if list == [] then None
    else if list[0].ByteAt(i).Some? then list[0].ByteAt(i)
    else ByteAt(list[1..], i)
  }

  // ----- searching -----

  /** `lower_bound` on right ends: the first piece that ends at or after `key`. */
  function LowerLeft(list: seq<Piece>, key: nat, from: nat := 0): (i: nat)
    requires from <= |list|
    ensures from <= i <= |list|
    ensures forall k :: from <= k < i ==> list[k].End() < key
    ensures i < |list| ==> list[i].End() >= key
    decreases |list| - from
  {
    if from == |list| || list[from].End() >= key then from else LowerLeft(list, key, from + 1)
  }

  /** `upper_bound` on left ends: the first piece that starts after `key`. */
  function UpperRight(list: seq<Piece>, key: nat, from: nat := 0): (i: nat)
    requires from <= |list|
    ensures from <= i <= |list|
    ensures forall k :: from <= k < i ==> list[k].start <= key
    ensures i < |list| ==> list[i].start > key
    decreases |list| - from
  {
    if from == |list| || list[from].start > key then from else UpperRight(list, key, from + 1)
  }

  // ----- what a push does, as one splice -----

  predicate Within(b: Piece, p: Piece) {
    p.start <= b.start && b.End() <= p.End()
  }

  /** One piece in place of `first..last` and `b`; where they overlap the bytes of `b` win. */
  function Merged(first: Piece, b: Piece, last: Piece, eof: bool): (m: Piece)
    requires b.start <= first.End() && last.start <= b.End()
  {
    var left := if first.start < b.start then first.data[..b.start - first.start] else [];
    var right := if b.End() < last.End() then last.data[b.End() - last.start..] else [];
    Piece(Min(first.start, b.start), left + b.data + right, eof)
  }

  /** What takes the place of `b` and of the pieces `list[lo..hi]` that it overlaps or touches. */
  function Joined(list: seq<Piece>, b: Piece, lo: nat, hi: nat): Piece
    requires lo <= hi <= |list|
    requires lo < hi ==> b.start <= list[lo].End() && list[hi - 1].start <= b.End()
  {
    if lo == hi then b
    else Merged(list[lo], b, list[hi - 1], b.eof || (hi == |list| && list[hi - 1].eof))
  }

  /** Whether the new piece is dropped because one held piece already spans it. */
  predicate DroppedAt(list: seq<Piece>, b: Piece, lo: nat, hi: nat)
    requires lo <= hi <= |list|
  {
    lo < hi && Within(b, list[lo])
  }

  predicate Dropped(list: seq<Piece>, b: Piece)
    requires Sorted(list)
  {
    SearchOrder(list, b);
    DroppedAt(list, b, LowerLeft(list, b.start), UpperRight(list, b.End()))
  }

  function Splice(list: seq<Piece>, lo: nat, hi: nat, m: Piece): (r: seq<Piece>)
    requires lo <= hi <= |list|
    ensures |r| == |list| - (hi - lo) + 1 && r[lo] == m
    ensures forall k :: 0 <= k < lo ==> r[k] == list[k]
    ensures forall k :: lo < k < |r| ==> r[k] == list[k - lo - 1 + hi]
  {
    list[..lo] + [m] + list[hi..]
  }

  function PushAt(list: seq<Piece>, b: Piece, lo: nat, hi: nat): seq<Piece>
    requires Touched(list, b, lo, hi)
  {
    if DroppedAt(list, b, lo, hi) then list else Splice(list, lo, hi, Joined(list, b, lo, hi))
  }

  function Push(list: seq<Piece>, b: Piece): (r: seq<Piece>)
    requires Sorted(list)
    ensures r != []
  {
    SearchOrder(list, b);
    PushAt(list, b, LowerLeft(list, b.start), UpperRight(list, b.End()))
  }

  /** `list[lo..hi]` are exactly the pieces that overlap or touch `b`. */
  ghost predicate Touched(list: seq<Piece>, b: Piece, lo: nat, hi: nat) {
    && lo <= hi <= |list|
    && (forall k :: 0 <= k < lo ==> list[k].End() < b.start)
    && (forall k :: lo <= k < hi ==> b.start <= list[k].End() && list[k].start <= b.End())
    && (forall k :: hi <= k < |list| ==> b.End() < list[k].start)
  }

  /** The two searches agree on a range of pieces, so the range check in `push_back` never fails. */
  lemma SearchOrder(list: seq<Piece>, b: Piece)
    requires Sorted(list)
    ensures Touched(list, b, LowerLeft(list, b.start), UpperRight(list, b.End()))
  {
    hide LowerLeft, UpperRight;
    var lo, hi := LowerLeft(list, b.start), UpperRight(list, b.End());
    assert hi < |list| ==> list[hi].End() > b.start;
  }

  // ----- contents -----

  /** In a sorted list a piece is the only one to answer for its indices. */
  lemma {:induction false} ByteAtPiece(list: seq<Piece>, k: nat, i: nat)
    requires Sorted(list) && k < |list| && list[k].ByteAt(i).Some?
    ensures ByteAt(list, i) == list[k].ByteAt(i)
  {
    if k > 0 {
      assert list[0].End() < list[k].start;
      assert list[1..][k - 1] == list[k];
      ByteAtPiece(list[1..], k - 1, i);
    }
  }

  lemma {:induction false} ByteAtNone(list: seq<Piece>, i: nat)
    requires forall k :: 0 <= k < |list| ==> list[k].ByteAt(i).None?
    ensures ByteAt(list, i) == None
  {
    if list != [] {
      ByteAtNone(list[1..], i);
    }
  }

  lemma {:induction false} ByteAtAppend(xs: seq<Piece>, ys: seq<Piece>, i: nat)
    ensures ByteAt(xs + ys, i) == if ByteAt(xs, i).Some? then ByteAt(xs, i) else ByteAt(ys, i)
  {
    if xs == [] {
      assert xs + ys == ys;
    } else {
      assert (xs + ys)[1..] == xs[1..] + ys;
      ByteAtAppend(xs[1..], ys, i);
    }
  }

  /** `m` may stand between the pieces before `lo` and those from `hi` on. */
  ghost predicate Fits(list: seq<Piece>, lo: nat, hi: nat, m: Piece)
  {
    && lo <= hi <= |list|
    && (forall k :: 0 <= k < lo ==> list[k].End() < m.start)
    && (forall k :: hi <= k < |list| ==> m.End() < list[k].start)
  }

  lemma SpliceSorted(list: seq<Piece>, lo: nat, hi: nat, m: Piece)
    requires Sorted(list) && Fits(list, lo, hi, m)
    ensures Sorted(Splice(list, lo, hi, m))
  {
  }

  /** The joined piece spans its parts and stays clear of the other pieces. */
  lemma JoinedFits(list: seq<Piece>, b: Piece, lo: nat, hi: nat)
    requires Sorted(list) && Touched(list, b, lo, hi)
    ensures
      var m := Joined(list, b, lo, hi);
      && Fits(list, lo, hi, m)
      && m.start == (if lo < hi then Min(list[lo].start, b.start) else b.start)
      && m.End() == (if lo < hi then Max(list[hi - 1].End(), b.End()) else b.End())
  {
  }

  /** The merged piece answers from the first piece, then `b`, then the last piece. */
  lemma MergedParts(first: Piece, b: Piece, last: Piece, eof: bool, i: nat)
    requires b.start <= first.End() && last.start <= b.End()
    ensures
      var m := Merged(first, b, last, eof);
      m.ByteAt(i) == if i < b.start then first.ByteAt(i) else if i < b.End() then b.ByteAt(i) else last.ByteAt(i)
  {
  }

  /** The merged piece holds exactly the bytes of the pieces it replaces, overridden by `b`. */
  lemma MergedByteAt(mid: seq<Piece>, b: Piece, eof: bool, i: nat)
    requires Sorted(mid) && mid != []
    requires b.start <= mid[0].End() && mid[|mid| - 1].start <= b.End()
    ensures
      var m := Merged(mid[0], b, mid[|mid| - 1], eof);
      m.ByteAt(i) == if b.ByteAt(i).Some? then b.ByteAt(i) else ByteAt(mid, i)
  {
    hide ByteAt, Merged;
    var last := |mid| - 1;
    MergedParts(mid[0], b, mid[last], eof, i);
    if i < b.start && mid[0].ByteAt(i).Some? {
      ByteAtPiece(mid, 0, i);
    } else if b.End() <= i && mid[last].ByteAt(i).Some? {
      ByteAtPiece(mid, last, i);
    } else if b.ByteAt(i).None? {
      InnerPieces(mid, b, i);
    }
  }

  /** Outside `b` only the first and the last touched piece can hold anything. */
  lemma InnerPieces(mid: seq<Piece>, b: Piece, i: nat)
    requires Sorted(mid) && mid != [] && b.ByteAt(i) == None
    requires b.start <= mid[0].End() && mid[|mid| - 1].start <= b.End()
    requires i < b.start ==> mid[0].ByteAt(i) == None
    requires b.End() <= i ==> mid[|mid| - 1].ByteAt(i) == None
    ensures ByteAt(mid, i) == None
  {
    assert forall k :: 0 < k < |mid| ==> mid[0].End() < mid[k].start;
    assert forall k :: 0 <= k < |mid| - 1 ==> mid[k].End() < mid[|mid| - 1].start;
    ByteAtNone(mid, i);
  }

  /** Splicing in `m` for `list[lo..hi]` adds `b` if `m` answers for both. */
  lemma SpliceByteAt(list: seq<Piece>, lo: nat, hi: nat, m: Piece, b: Piece, i: nat)
    requires Sorted(list) && Touched(list, b, lo, hi)
    requires m.ByteAt(i) == if b.ByteAt(i).Some? then b.ByteAt(i) else ByteAt(list[lo..hi], i)
    ensures ByteAt(Splice(list, lo, hi, m), i) == if b.ByteAt(i).Some? then b.ByteAt(i) else ByteAt(list, i)
  {
    var pre, mid, post := list[..lo], list[lo..hi], list[hi..];
    assert list == pre + mid + post;
    ByteAtAppend(pre + mid, post, i);
    ByteAtAppend(pre, mid, i);
    ByteAtAppend(pre + [m], post, i);
    ByteAtAppend(pre, [m], i);
    if b.ByteAt(i).Some? {
      ByteAtNone(pre, i);
    }
  }

  lemma JoinedByteAt(list: seq<Piece>, b: Piece, lo: nat, hi: nat, i: nat)
    requires Sorted(list) && Touched(list, b, lo, hi)
    ensures
      var list' := Splice(list, lo, hi, Joined(list, b, lo, hi));
      ByteAt(list', i) == if b.ByteAt(i).Some? then b.ByteAt(i) else ByteAt(list, i)
  {
    var m, mid := Joined(list, b, lo, hi), list[lo..hi];
    if lo < hi {
      assert mid[0] == list[lo] && mid[|mid| - 1] == list[hi - 1];
      MergedByteAt(mid, b, m.eof, i);
    }
    SpliceByteAt(list, lo, hi, m, b, i);
  }

  lemma PushAtSorted(list: seq<Piece>, b: Piece, lo: nat, hi: nat)
    requires Sorted(list) && Touched(list, b, lo, hi)
    ensures Sorted(PushAt(list, b, lo, hi))
  {
    JoinedFits(list, b, lo, hi);
    SpliceSorted(list, lo, hi, Joined(list, b, lo, hi));
  }

  /** A push keeps the list sorted with gaps, and unites what was held with the new piece: new bytes
      replace old ones, unless the piece is dropped as already held. */
  lemma PushContents(list: seq<Piece>, b: Piece, i: nat)
    requires Sorted(list)
    ensures Sorted(Push(list, b))
    ensures ByteAt(Push(list, b), i) == if b.ByteAt(i).Some? && !Dropped(list, b) then b.ByteAt(i) else ByteAt(list, i)
  {
    hide LowerLeft, UpperRight, ByteAt, Splice, Joined;
    SearchOrder(list, b);
    var lo, hi := LowerLeft(list, b.start), UpperRight(list, b.End());
    PushAtSorted(list, b, lo, hi);
    JoinedByteAt(list, b, lo, hi, i);
  }

  // ----- one stream -----

  /** Every held byte is the one `tape` has at that index; `None` marks an index without a byte. */
  ghost predicate Agrees(list: seq<Piece>, tape: seq<Option<byte>>) {
    forall i: nat :: ByteAt(list, i).Some? ==> i < |tape| && ByteAt(list, i) == tape[i]
  }

  ghost predicate CutFrom(b: Piece, tape: seq<Option<byte>>) {
    b.data == [] || (b.End() <= |tape| && forall k :: 0 <= k < |b.data| ==> tape[b.start + k] == Some(b.data[k]))
  }

  /** Agreeing index by index is agreeing piece by piece. */
  lemma AgreesPieces(list: seq<Piece>, tape: seq<Option<byte>>)
    requires Sorted(list)
    ensures Agrees(list, tape) <==> forall k :: 0 <= k < |list| ==> CutFrom(list[k], tape)
  {
    hide ByteAt;
    if Agrees(list, tape) {
      forall k | 0 <= k < |list| ensures CutFrom(list[k], tape) {
        var p := list[k];
        forall n | 0 <= n < |p.data| ensures p.start + n < |tape| && tape[p.start + n] == Some(p.data[n]) {
          ByteAtPiece(list, k, p.start + n);
        }
        if p.data != [] {
          ByteAtPiece(list, k, p.End() - 1);
        }
      }
    }
    if forall k :: 0 <= k < |list| ==> CutFrom(list[k], tape) {
      forall i: nat | ByteAt(list, i).Some? ensures i < |tape| && ByteAt(list, i) == tape[i] {
        if k :| 0 <= k < |list| && list[k].ByteAt(i).Some? {
          ByteAtPiece(list, k, i);
          assert CutFrom(list[k], tape);
          assert tape[list[k].start + (i - list[k].start)] == Some(list[k].data[i - list[k].start]);
        } else {
          ByteAtNone(list, i);
        }
      }
    }
  }

  lemma PushUnionAt(list: seq<Piece>, b: Piece, tape: seq<Option<byte>>, i: nat)
    requires Sorted(list) && Agrees(list, tape) && CutFrom(b, tape)
    ensures ByteAt(Push(list, b), i) == if b.ByteAt(i).Some? then b.ByteAt(i) else ByteAt(list, i)
    ensures ByteAt(Push(list, b), i).Some? ==> i < |tape| && ByteAt(Push(list, b), i) == tape[i]
  {
    PushContents(list, b, i);
    if Dropped(list, b) && b.ByteAt(i).Some? {
      ByteAtPiece(list, LowerLeft(list, b.start), i);
    }
    assert b.ByteAt(i).Some? ==> tape[b.start + (i - b.start)] == Some(b.data[i - b.start]);
  }

  /** For pieces cut from one stream nothing held is ever lost or altered: the index-to-byte map
      becomes exactly the union of the old one and the new piece. */
  lemma PushUnion(list: seq<Piece>, b: Piece, tape: seq<Option<byte>>)
    requires Sorted(list) && Agrees(list, tape) && CutFrom(b, tape)
    ensures Sorted(Push(list, b)) && Agrees(Push(list, b), tape)
    ensures forall i: nat :: ByteAt(Push(list, b), i) == if b.ByteAt(i).Some? then b.ByteAt(i) else ByteAt(list, i)
  {
    PushContents(list, b, 0);
    var list' := Push(list, b);
    forall i: nat
      ensures ByteAt(list', i) == if b.ByteAt(i).Some? then b.ByteAt(i) else ByteAt(list, i)
      ensures ByteAt(list', i).Some? ==> i < |tape| && ByteAt(list', i) == tape[i]
    {
      PushUnionAt(list, b, tape, i);
    }
  }

  /** Where pieces may lie: starts in `low..=high`, ends at most `end`. */
  ghost predicate Bounded(list: seq<Piece>, low: int, high: int, end: int) {
    forall k :: 0 <= k < |list| ==> low <= list[k].start <= high && list[k].End() <= end
  }

  lemma PushAtBounded(list: seq<Piece>, b: Piece, lo: nat, hi: nat, low: int, high: int, end: int)
    requires Sorted(list) && Touched(list, b, lo, hi) && Bounded(list, low, high, end)
    requires low <= b.start <= high
    ensures Bounded(PushAt(list, b, lo, hi), low, high, end) <==> b.End() <= end
  {
    hide Splice, Merged;
    JoinedFits(list, b, lo, hi);
    var m := Joined(list, b, lo, hi);
    assert Splice(list, lo, hi, m)[lo] == m;
  }

  /** Starts stay where they were or at the new piece; ends stay in bounds exactly if the new one is. */
  lemma PushBounded(list: seq<Piece>, b: Piece, low: int, high: int, end: int)
    requires Sorted(list) && Bounded(list, low, high, end) && low <= b.start <= high
    ensures Bounded(Push(list, b), low, high, end) <==> b.End() <= end
  {
    hide LowerLeft, UpperRight, Splice, Joined;
    SearchOrder(list, b);
    PushAtBounded(list, b, LowerLeft(list, b.start), UpperRight(list, b.End()), low, high, end);
  }

  /** `p` respects a stream whose bytes so far end at index `end`: only after the stream is finished
      may a piece carry the end-of-file mark, at `end`, or an empty piece lie one index further. */
  predicate Respects(p: Piece, end: nat, finished: bool) {
    && (p.End() <= end || (finished && p.data == [] && p.start == end + 1 && !p.eof))
    && (p.eof ==> finished && p.End() == end)
  }

  ghost predicate AllRespect(list: seq<Piece>, end: nat, finished: bool) {
    forall k :: 0 <= k < |list| ==> Respects(list[k], end, finished)
  }

  ghost predicate HasEof(list: seq<Piece>) {
    exists k :: 0 <= k < |list| && list[k].eof
  }

  /** Pieces before the last touched one carry no mark, since another piece starts after them. */
  lemma JoinedEof(list: seq<Piece>, b: Piece, lo: nat, hi: nat, end: nat, finished: bool)
    requires Sorted(list) && Touched(list, b, lo, hi)
    requires AllRespect(list, end, finished) && Respects(b, end, finished)
    ensures Respects(Joined(list, b, lo, hi), end, finished)
    ensures forall k :: lo <= k < hi && list[k].eof ==> k == hi - 1
  {
    JoinedFits(list, b, lo, hi);
    assert forall k :: lo <= k < hi - 1 ==> list[k].End() < list[hi - 1].start;
  }

  /** `b` joins the piece that carries the mark while another piece lies beyond it. */
  predicate OverrunAt(list: seq<Piece>, lo: nat, hi: nat) {
    lo < hi < |list| && list[hi - 1].eof
  }

  predicate Overrun(list: seq<Piece>, b: Piece) {
    OverrunAt(list, LowerLeft(list, b.start), UpperRight(list, b.End()))
  }

  lemma PushAtEof(list: seq<Piece>, b: Piece, lo: nat, hi: nat, end: nat, finished: bool)
    requires Sorted(list) && Touched(list, b, lo, hi)
    requires AllRespect(list, end, finished) && Respects(b, end, finished)
    ensures AllRespect(PushAt(list, b, lo, hi), end, finished)
    ensures HasEof(PushAt(list, b, lo, hi)) <==>
      if DroppedAt(list, b, lo, hi) then HasEof(list) else b.eof || (HasEof(list) && !OverrunAt(list, lo, hi))
  {
    JoinedEof(list, b, lo, hi, end, finished);
    EofUnique(list, end, finished);
    SpliceHasEof(list, lo, hi, Joined(list, b, lo, hi));
  }

  /** End-of-file marks stay at the true end. A new mark is kept exactly when its piece is not
      dropped, and a held one exactly when it is not overrun by a piece that is joined to it. */
  lemma PushEof(list: seq<Piece>, b: Piece, end: nat, finished: bool)
    requires Sorted(list) && AllRespect(list, end, finished) && Respects(b, end, finished)
    ensures AllRespect(Push(list, b), end, finished)
    ensures HasEof(Push(list, b)) <==>
      if Dropped(list, b) then HasEof(list) else b.eof || (HasEof(list) && !Overrun(list, b))
  {
    hide LowerLeft, UpperRight, Splice, Joined;
    SearchOrder(list, b);
    PushAtEof(list, b, LowerLeft(list, b.start), UpperRight(list, b.End()), end, finished);
  }

  /** A mark that is lost: the FIN comes without data, right behind a piece that waits. */
  lemma BareFinLosesMark(start: nat, data: seq<byte>)
    requires data != []
    ensures
      var p := Piece(start, data, false);
      Push([p], Piece(p.End(), [], true)) == [p] && !HasEof(Push([p], Piece(p.End(), [], true)))
  {
    var p := Piece(start, data, false);
    assert LowerLeft([p], p.End()) == 0 && UpperRight([p], p.End()) == 1;
  }

  lemma EofUnique(list: seq<Piece>, end: nat, finished: bool)
    requires Sorted(list) && AllRespect(list, end, finished)
    ensures forall j, k :: 0 <= j < |list| && 0 <= k < |list| && list[j].eof && list[k].eof ==> j == k
  {
    assert forall j, k :: 0 <= j < k < |list| && Respects(list[k], end, finished) && list[k].eof ==>
        list[j].End() < end;
  }

  lemma SpliceHasEof(list: seq<Piece>, lo: nat, hi: nat, m: Piece)
    requires lo <= hi <= |list|
    ensures HasEof(Splice(list, lo, hi, m)) <==>
      m.eof || exists k :: (0 <= k < lo || hi <= k < |list|) && list[k].eof
  {
    var r := Splice(list, lo, hi, m);
    assert m.eof ==> r[lo].eof;
    forall k | (0 <= k < lo || hi <= k < |list|) && list[k].eof ensures HasEof(r) {
      assert r[if k < lo then k else k - hi + lo + 1].eof;
    }
  }

  lemma MergedData(first: Piece, b: Piece, last: Piece, eof: bool)
    requires b.start <= first.End() && last.start <= b.End()
    ensures
      var left := if first.start < b.start then first.data[..b.start - first.start] else [];
      var m := Merged(first, b, last, eof);
      m.data == left + b.data + Overhang(last, b.End()) && m.start == Min(first.start, b.start) && m.eof == eof
  {
  }

  lemma ReplaceLast(list: seq<Piece>, lo: nat, last: nat, m: Piece)
    requires lo <= last < |list|
    ensures var l := list[last := m]; l[..lo] + l[last..] == Splice(list, lo, last + 1, m)
  {
  }

  lemma ReplaceFirst(list: seq<Piece>, lo: nat, hi: nat, m: Piece)
    requires lo < hi <= |list|
    ensures var l := list[lo := m]; l[..lo + 1] + l[hi..] == Splice(list, lo, hi, m)
  {
  }

  // ----- taking from the front -----

  /** The first piece cut to `size` bytes, and the list without them. */
  function PopFront(list: seq<Piece>, size: nat): (Piece, seq<Piece>) {
    if list == [] then (Piece(0, [], false), [])
    else
      var p := list[0];
      if size >= |p.data| then (p, list[1..])
      else (Piece(p.start, p.data[..size], false), list[1..] + [Piece(p.start + size, p.data[size..], p.eof)])
  }

  /** The bytes of `p` from index `from` on. */
  ghost function Overhang(p: Piece, from: nat): seq<byte> {
    if p.start <= from < p.End() then p.data[from - p.start..] else []
  }

  // ----- size -----

  function SizeOf(list: seq<Piece>): nat {
    if list == [] then 0 else |list[0].data| + SizeOf(list[1..])
  }

  predicate Between(lo: nat, i: nat, hi: nat) {
    lo <= i < hi
  }

  ghost function Range(lo: nat, hi: nat): set<nat> {
    set i: nat | i < hi && Between(lo, i, hi)
  }

  lemma {:induction false} RangeSize(lo: nat, hi: nat)
    requires lo <= hi
    ensures |Range(lo, hi)| == hi - lo
    decreases hi - lo
  {
    if lo < hi {
      RangeSize(lo + 1, hi);
      assert Range(lo, hi) == {lo} + Range(lo + 1, hi);
    }
  }

  /** The indices at which a list holds a byte. */
  ghost function Held(list: seq<Piece>): set<nat> {
    if list == [] then {} else Range(list[0].start, list[0].End()) + Held(list[1..])
  }

  lemma {:induction false} HeldByteAt(list: seq<Piece>, i: nat)
    ensures i in Held(list) <==> ByteAt(list, i).Some?
  {
    if list != [] {
      HeldByteAt(list[1..], i);
    }
  }

  /** Adding up the lengths counts every held index once. */
  lemma {:induction false} SizeCountsHeld(list: seq<Piece>)
    requires Sorted(list)
    ensures SizeOf(list) == |Held(list)|
  {
    if list != [] {
      var rest := list[1..];
      SizeCountsHeld(rest);
      RangeSize(list[0].start, list[0].End());
      forall i | i in Range(list[0].start, list[0].End()) ensures i !in Held(rest) {
        HeldByteAt(rest, i);
        ByteAtNone(rest, i);
      }
      assert Range(list[0].start, list[0].End()) !! Held(rest);
    }
  }

  lemma {:induction false} SizeAppend(xs: seq<Piece>, ys: seq<Piece>)
    ensures SizeOf(xs + ys) == SizeOf(xs) + SizeOf(ys)
  {
    if xs == [] {
      assert xs + ys == ys;
    } else {
      SizeAppend(xs[1..], ys);
      assert (xs + ys)[1..] == xs[1..] + ys;
    }
  }

  lemma PopFrontSize(list: seq<Piece>, size: nat)
    requires list != []
    ensures var (p, rest) := PopFront(list, size); |p.data| <= size && |p.data| + SizeOf(rest) == SizeOf(list)
  {
    if size < |list[0].data| {
      SizeAppend(list[1..], [Piece(list[0].start + size, list[0].data[size..], list[0].eof)]);
    }
  }

  /** Where a piece is dropped, every index of it is held already. */
  lemma DroppedHeld(list: seq<Piece>, b: Piece, i: nat)
    requires Sorted(list) && Dropped(list, b) && b.ByteAt(i).Some?
    ensures ByteAt(list, i).Some?
  {
    ByteAtPiece(list, LowerLeft(list, b.start), i);
  }

  /** After a push of any piece the indices held are those of the list and those of the piece. */
  lemma PushHeld(list: seq<Piece>, b: Piece)
    requires Sorted(list)
    ensures Sorted(Push(list, b)) && Held(Push(list, b)) == Held(list) + Range(b.start, b.End())
  {
    hide Push, Held, Dropped;
    PushContents(list, b, 0);
    forall i: nat ensures i in Held(Push(list, b)) <==> i in Held(list) || i in Range(b.start, b.End()) {
      PushContents(list, b, i);
      HeldByteAt(list, i);
      HeldByteAt(Push(list, b), i);
      if b.ByteAt(i).Some? && Dropped(list, b) {
        DroppedHeld(list, b, i);
      }
    }
  }

  lemma BoundedSize(list: seq<Piece>, low: nat, high: int, end: int)
    requires Sorted(list) && Bounded(list, low, high, end) && low <= end
    ensures SizeOf(list) <= end - low
  {
    SizeCountsHeld(list);
    RangeSize(low, end);
    forall i | i in Held(list) ensures i in Range(low, end) {
      HeldByteAt(list, i);
      if i !in Range(low, end) {
        ByteAtNone(list, i);
      }
    }
    SubsetSize(Held(list), Range(low, end));
  }

  lemma {:induction false} SubsetSize(a: set<nat>, b: set<nat>)
    requires a <= b
    ensures |a| <= |b|
  {
    if a != {} {
      var x :| x in a;
      SubsetSize(a - {x}, b - {x});
    }
  }

  class BufferStringList {
    var list: seq<Piece>

    constructor ()
      ensures list == []
    {
      list := [];
    }

    method PushBack(target: seq<byte>, index: nat, eof: bool)
      requires Sorted(list)
      modifies this
      ensures list == Push(old(list), Piece(index, target, eof))
    {
      var buffer := Piece(index, target, eof);
      var lower, upper := LowerLeft(list, buffer.start), UpperRight(list, buffer.End());
      SearchOrder(list, buffer);
      if lower == upper {
        list := list[..lower] + [buffer] + list[lower..];
        return;
      }
      Merge(buffer, lower, upper);
    }

    method Merge(buffer: Piece, lower: nat, upperRight: nat)
      requires Sorted(list) && Touched(list, buffer, lower, upperRight) && lower < upperRight
      modifies this
      ensures list == PushAt(old(list), buffer, lower, upperRight)
    {
      if list[lower].start <= buffer.start && list[lower].End() >= buffer.End() {
        return;
      }
      var isListEnd := upperRight == |list|;
      var upper := if !isListEnd then upperRight else upperRight - 1;
      // The exception for `upper` before `lower` cannot be reached.
      assert lower <= upper;
      var merged := MergePieces(list, buffer, lower, upper, isListEnd);
      if isListEnd {
        ReplaceLast(list, lower, upper, merged);
        list := list[upper := merged];
        list := list[..lower] + list[upper..];
      } else {
        ReplaceFirst(list, lower, upper, merged);
        list := list[lower := merged];
        list := list[..lower + 1] + list[upper..];
      }
    }

    /** The merged piece, put together part by part. */
    static method MergePieces(list: seq<Piece>, buffer: Piece, lower: nat, upper: nat, isListEnd: bool)
      returns (merged: Piece)
      requires Sorted(list) && lower <= upper <= |list|
      requires if isListEnd then upper == |list| - 1 else lower < upper < |list|
      requires buffer.start <= list[lower].End() && list[if isListEnd then upper else upper - 1].start <= buffer.End()
      ensures merged == Joined(list, buffer, lower, if isListEnd then upper + 1 else upper)
    {
      hide Merged, Sorted;
      ghost var last := list[if isListEnd then upper else upper - 1];
      var leftIndex := Min(list[lower].start, buffer.start);
      var rightIndex := if !isListEnd then buffer.End() else Max(list[upper].End(), buffer.End());
      var newString := LeftPart(list[lower], buffer, leftIndex);
      var start := newString;
      newString := AppendOverhangs(list, newString, lower, upper, rightIndex, if isListEnd then upper + 1 else upper);
      if isListEnd && buffer.End() < rightIndex {
        newString := newString + list[upper].data[buffer.End() - list[upper].start..];
      }
      assert newString == start + Overhang(last, buffer.End());
      var finalEof := buffer.eof || (isListEnd && list[upper].eof);
      MergedData(list[lower], buffer, last, finalEof);
      merged := Piece(leftIndex, newString, finalEof);
    }

    static method LeftPart(first: Piece, buffer: Piece, leftIndex: nat) returns (newString: seq<byte>)
      requires buffer.start <= first.End() && leftIndex == Min(first.start, buffer.start)
      ensures newString == (if first.start < buffer.start then first.data[..buffer.start - first.start] else [])
        + buffer.data
    {
      newString := [];
      if buffer.start > leftIndex {
        newString := newString + first.data[..buffer.start - leftIndex];
      }
      newString := newString + buffer.data;
    }

    /** The loop of `push_back`: only the last touched piece can reach past `rightIndex`. */
    static method AppendOverhangs(list: seq<Piece>, start: seq<byte>, lower: nat, upper: nat, rightIndex: nat,
                                  ghost hi: nat)
      returns (newString: seq<byte>)
      requires Sorted(list) && lower <= upper <= hi <= |list| && lower < hi && list[hi - 1].start <= rightIndex
      ensures newString == start + if upper == hi then Overhang(list[hi - 1], rightIndex) else []
    {
      newString := start;
      var it := lower;
      while it != upper
        invariant lower <= it <= upper
        invariant newString == start + if it == hi then Overhang(list[hi - 1], rightIndex) else []
        decreases upper - it
      {
        assert it < hi - 1 ==> list[it].End() < list[hi - 1].start;
        if list[it].End() > rightIndex {
          newString := newString + list[it].data[rightIndex - list[it].start..];
        }
        it := it + 1;
      }
    }

    method Size() returns (size: nat)
      requires Sorted(list)
      ensures size == |Held(list)|
    {
      size := 0;
      for i := 0 to |list|
        invariant size + SizeOf(list[i..]) == SizeOf(list)
      {
        assert list[i..][1..] == list[i + 1..];
        size := size + (list[i].End() - list[i].start);
      }
      SizeCountsHeld(list);
    }

    function TopIndex(): nat
      reads this
    {
      if list == [] then 0 else list[0].start
    }

    /** Takes up to `size` bytes off the first piece. What is left of it goes to the far end. */
    method PopUpBufferString(size: nat) returns (result: Piece)
      modifies this
      ensures (result, list) == PopFront(old(list), size)
    {
      if list == [] {
        return Piece(0, [], false);
      }
      var buffer := list[0];
      if size >= |buffer.data| {
        list := list[1..];
        return buffer;
      }
      result := Piece(buffer.start, buffer.data[..size], false);
      var remaining := Piece(buffer.start + size, buffer.data[size..], buffer.eof);
      list := list[1..];
      list := list + [remaining];
    }
  }
}
