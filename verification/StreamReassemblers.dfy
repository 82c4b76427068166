/** Reassembly of a byte stream from pieces that arrive out of order, overlapping or repeated. */
module StreamReassemblers {
  import opened Types
  import opened ByteStreams
  import opened BufferStrings

  datatype Reassembler = Reassembler(top: nat, output: Stream, capacity: nat, list: seq<Piece>)
  {
    ghost predicate Valid() {
      output.Valid() && output.capacity == capacity && Sorted(list)
    }

    function CurrentCapacity(): nat
      requires output.Valid() && output.capacity == capacity
    {
      capacity - output.BufferSize()
    }

    /** What of a substring goes into the list: nothing, or the part from `top` on, cut to the
        current capacity. Cutting bytes off also drops the end-of-file mark. */
    function Admitted(data: seq<byte>, index: nat, eof: bool): (a: Option<Piece>)
      requires output.Valid() && output.capacity == capacity
      ensures a.Some? ==> top <= a.value.start < top + CurrentCapacity() && |a.value.data| <= CurrentCapacity()
    {
      if index + |data| < top then None
      else
        var d, i := if index < top then data[top - index..] else data, Max(index, top);
        if i - top + 1 > CurrentCapacity() then None
        else if |d| > CurrentCapacity() then Some(Piece(i, d[..CurrentCapacity()], false))
        else Some(Piece(i, d, eof))
    }

    /** Moves bytes from the first piece of `l` to the output. */
    function Release(l: seq<Piece>): Reassembler
      requires output.Valid() && output.capacity == capacity && l != []
    {
      var (p, rest) := PopFront(l, output.RemainingCapacity());
      var written := output.Write(p.data);
      Reassembler(top + |p.data|, if p.eof then written.EndInput() else written, capacity, rest)
    }

    function PushSubstring(data: seq<byte>, index: nat, eof: bool): Reassembler
      requires Valid()
    {
      match Admitted(data, index, eof)
      case None => this
      case Some(b) => Absorb(b)
    }

    function Absorb(b: Piece): Reassembler
      requires Valid()
    {
      var l := Push(list, b);
      if l[0].start != top then this.(list := l) else Release(l)
    }

    function Read(n: nat): Reassembler
      requires Valid() && n <= output.BufferSize()
    {
      this.(output := output.Read(n))
    }

    // ----- where pieces may wait -----

    /** One past the last index the output has room for. Reads raise it; nothing lowers it. */
    ghost function Limit(): nat
      requires Valid()
    {
      top + CurrentCapacity()
    }

    ghost predicate Placed()
      requires Valid()
    {
      Bounded(list, top, Limit(), Limit() + capacity - 1)
    }
  }

  function NewReassembler(capacity: nat): (r: Reassembler)
    ensures r.Valid() && r.Placed()
  {
    Reassembler(0, NewStream(capacity), capacity, [])
  }

  /** A partial pop happens only when the list has one piece, so putting the rest at the far end
      keeps the list sorted. */
  lemma ReleaseKeeps(r: Reassembler, l: seq<Piece>)
    requires r.Valid() && Sorted(l) && l != [] && l[0].start == r.top
    requires Bounded(l, r.top, r.Limit(), r.Limit() + r.capacity - 1)
    ensures var r' := r.Release(l); r'.Valid() && r'.Placed() && r'.Limit() == r.Limit() && r'.top >= r.top
  {
    assert |l| > 1 ==> l[0].End() < l[1].start <= r.Limit();
  }

  ghost predicate Admissible(r: Reassembler, b: Piece)
    requires r.Valid()
  {
    r.top <= b.start < r.Limit() && |b.data| <= r.CurrentCapacity()
  }

  lemma AbsorbKeeps(r: Reassembler, b: Piece)
    requires r.Valid() && r.Placed() && Admissible(r, b)
    ensures r.Absorb(b).Valid() && r.Absorb(b).Placed() && r.Absorb(b).Limit() == r.Limit() && r.Absorb(b).top >= r.top
  {
    hide Push, Reassembler.Release;
    PushContents(r.list, b, 0);
    PushBounded(r.list, b, r.top, r.Limit(), r.Limit() + r.capacity - 1);
    var l := Push(r.list, b);
    if l[0].start == r.top {
      ReleaseKeeps(r, l);
    }
  }

  /** Every substring, wherever it lies, leaves a sorted list whose pieces start within the window
      and end less than `capacity` beyond it. */
  lemma PushKeeps(r: Reassembler, data: seq<byte>, index: nat, eof: bool)
    requires r.Valid() && r.Placed()
    ensures
      var r' := r.PushSubstring(data, index, eof);
      r'.Valid() && r'.Placed() && r'.Limit() == r.Limit() && r'.top >= r.top
  {
    hide Reassembler.Absorb;
    var a := r.Admitted(data, index, eof);
    if a.Some? {
      AbsorbKeeps(r, a.value);
    }
  }

  lemma ReadKeeps(r: Reassembler, n: nat)
    requires r.Valid() && r.Placed() && n <= r.output.BufferSize()
    ensures r.Read(n).Valid() && r.Read(n).Placed() && r.Read(n).Limit() == r.Limit() + n
  {
  }

  /** Bytes waiting and bytes assembled but not read. The interface documents `capacity` as its limit. */
  function Memory(r: Reassembler): nat
    requires r.output.Valid()
  {
    SizeOf(r.list) + r.output.BufferSize()
  }

  /** Waiting and assembled bytes together stay below twice the capacity. */
  lemma MemoryBound(r: Reassembler)
    requires r.Valid() && r.Placed() && r.capacity > 0
    ensures Memory(r) <= 2 * r.capacity - 1
  {
    BoundedSize(r.list, r.top, r.Limit(), r.Limit() + r.capacity - 1);
  }

  lemma PushTouching(b: Piece, a: Piece)
    requires a.End() == b.start && b.data != [] && a.data != []
    ensures Push([b], a) == [Piece(a.start, a.data + b.data, a.eof || b.eof)]
  {
    assert LowerLeft([b], a.start) == 0 && UpperRight([b], a.End()) == 1;
    assert Merged(b, a, b, a.eof || b.eof) == Piece(a.start, a.data + b.data, a.eof || b.eof);
  }

  /** A full-length piece at the last index of the window waits there. */
  lemma FarPiece(capacity: nat, far: seq<byte>)
    requires capacity > 1 && |far| == capacity
    ensures
      var r := NewReassembler(capacity);
      r.PushSubstring(far, capacity - 1, false) == r.(list := [Piece(capacity - 1, far, false)])
  {
    assert Push([], Piece(capacity - 1, far, false)) == [Piece(capacity - 1, far, false)];
  }

  lemma NearPiece(r: Reassembler, far: seq<byte>, near: seq<byte>)
    requires r.capacity > 1 && |far| == r.capacity && |near| == r.capacity - 1
    requires r == NewReassembler(r.capacity).(list := [Piece(r.capacity - 1, far, false)])
    ensures
      var r' := r.PushSubstring(near, 0, false);
      SizeOf(r'.list) == r.capacity - 1 && r'.output.BufferSize() == r.capacity
  {
    hide Push;
    var b, a, m := Piece(r.capacity - 1, far, false), Piece(0, near, false), Piece(0, near + far, false);
    assert r.Admitted(near, 0, false) == Some(a);
    PushTouching(b, a);
    assert r.PushSubstring(near, 0, false) == r.Release([m]);
    assert PopFront([m], r.capacity).1 == [Piece(r.capacity, m.data[r.capacity..], false)];
  }

  /** The bound is reached at every capacity above one, where it exceeds the capacity: push a piece
      at the far edge of the window, then the rest. */
  lemma MemoryBoundTight(capacity: nat, far: seq<byte>, near: seq<byte>) returns (r: Reassembler)
    requires capacity > 1 && |far| == capacity && |near| == capacity - 1
    ensures r == NewReassembler(capacity).PushSubstring(far, capacity - 1, false) && r.Valid()
    ensures
      var r' := r.PushSubstring(near, 0, false);
      r'.output.Valid() && Memory(r') == 2 * capacity - 1
  {
    FarPiece(capacity, far);
    r := NewReassembler(capacity).(list := [Piece(capacity - 1, far, false)]);
    NearPiece(r, far, near);
  }

  // ----- the documented memory limit -----

  /** The indices of what a push admits. */
  ghost function AdmittedIndices(r: Reassembler, data: seq<byte>, index: nat, eof: bool): set<nat>
    requires r.Valid()
  {
    match r.Admitted(data, index, eof)
    case None => {}
    case Some(b) => Range(b.start, b.End())
  }

  /** Moving bytes to the output keeps their number. */
  lemma ReleaseConserves(r: Reassembler, l: seq<Piece>)
    requires r.Valid() && l != []
    ensures r.Release(l).output.Valid() && Memory(r.Release(l)) == SizeOf(l) + r.output.BufferSize()
  {
    hide PopFront, SizeOf;
    PopFrontSize(l, r.output.RemainingCapacity());
  }

  lemma AbsorbMemory(r: Reassembler, b: Piece)
    requires r.Valid()
    ensures
      var r' := r.Absorb(b);
      r'.output.Valid() && Memory(r') == |Held(r.list) + Range(b.start, b.End())| + r.output.BufferSize()
  {
    hide Push, Reassembler.Release, Held, Range;
    var l := Push(r.list, b);
    PushHeld(r.list, b);
    SizeCountsHeld(l);
    ReleaseConserves(r, l);
  }

  /** What any push makes of the memory in use: indices held before or admitted now, each once, and
      the bytes that were not read. So it keeps to the documented limit if and only if the indices
      held and admitted are no more than the free capacity. */
  lemma PushMemory(r: Reassembler, data: seq<byte>, index: nat, eof: bool)
    requires r.Valid()
    ensures
      var r', n := r.PushSubstring(data, index, eof), |Held(r.list) + AdmittedIndices(r, data, index, eof)|;
      && r'.output.Valid() && Memory(r') == n + r.output.BufferSize()
      && (Memory(r') <= r.capacity <==> n <= r.CurrentCapacity())
  {
    hide Reassembler.Absorb, Held, Range;
    match r.Admitted(data, index, eof)
    case None =>
      SizeCountsHeld(r.list);
      assert Held(r.list) + {} == Held(r.list);
    case Some(b) => AbsorbMemory(r, b);
  }

  /** No waiting piece reaches past the window. That is enough for the documented limit. */
  ghost predicate InWindow(r: Reassembler)
    requires r.Valid()
  {
    Bounded(r.list, r.top, r.Limit(), r.Limit())
  }

  lemma DocumentedBound(r: Reassembler)
    requires r.Valid() && InWindow(r)
    ensures Memory(r) <= r.capacity
  {
    BoundedSize(r.list, r.top, r.Limit(), r.Limit());
  }

  lemma ReleaseOneInWindow(r: Reassembler, p: Piece)
    requires r.Valid() && p.start == r.top
    ensures r.Release([p]).Valid() && (InWindow(r.Release([p])) <==> p.End() <= r.Limit())
  {
    var r' := r.Release([p]);
    if p.End() <= r.Limit() {
      assert r'.list == [];
    } else {
      assert r'.list[0].End() == p.End() && r'.Limit() == r.Limit();
    }
  }

  lemma ReleaseFirstInWindow(r: Reassembler, l: seq<Piece>)
    requires r.Valid() && Sorted(l) && |l| > 1 && l[0].start == r.top
    requires Bounded(l, r.top, r.Limit(), r.Limit() + r.capacity - 1)
    ensures
      var r' := r.Release(l);
      r'.Valid() && r'.list == l[1..] && r'.top == l[0].End() < r'.Limit() == r.Limit()
  {
    assert l[0].End() < l[1].start <= r.Limit();
    assert |l[0].data| <= r.output.RemainingCapacity();
  }

  lemma ReleaseInWindow(r: Reassembler, l: seq<Piece>)
    requires r.Valid() && Sorted(l) && l != [] && l[0].start == r.top
    requires Bounded(l, r.top, r.Limit(), r.Limit() + r.capacity - 1)
    ensures r.Release(l).Valid() && (InWindow(r.Release(l)) <==> Bounded(l, r.top, r.Limit(), r.Limit()))
  {
    hide Reassembler.Release;
    if |l| == 1 {
      assert l == [l[0]];
      ReleaseOneInWindow(r, l[0]);
    } else {
      ReleaseFirstInWindow(r, l);
      var rest := l[1..];
      assert forall k :: 1 <= k < |l| ==> l[k] == rest[k - 1];
      assert forall k :: 0 <= k < |rest| ==> rest[k] == l[k + 1] && l[0].End() < l[k + 1].start;
    }
  }

  lemma AbsorbInWindow(r: Reassembler, b: Piece)
    requires r.Valid() && r.Placed() && InWindow(r) && Admissible(r, b)
    ensures r.Absorb(b).Valid() && (InWindow(r.Absorb(b)) <==> b.End() <= r.Limit())
  {
    hide Push, Reassembler.Release;
    PushContents(r.list, b, 0);
    PushBounded(r.list, b, r.top, r.Limit(), r.Limit() + r.capacity - 1);
    PushBounded(r.list, b, r.top, r.Limit(), r.Limit());
    var l := Push(r.list, b);
    if l[0].start == r.top {
      ReleaseInWindow(r, l);
    }
  }

  /** A push leaves every piece within the window if and only if what it admits ends there. */
  lemma PushInWindow(r: Reassembler, data: seq<byte>, index: nat, eof: bool)
    requires r.Valid() && r.Placed() && InWindow(r)
    ensures
      var r', a := r.PushSubstring(data, index, eof), r.Admitted(data, index, eof);
      r'.Valid() && (InWindow(r') <==> a == None || a.value.End() <= r.Limit())
  {
    hide Reassembler.Absorb;
    var a := r.Admitted(data, index, eof);
    if a.Some? {
      AbsorbInWindow(r, a.value);
    }
  }

  // ----- refinement of one stream -----

  /** `bytes` are what `tape` has from index `base` on. */
  ghost predicate ReadsFrom(bytes: seq<byte>, tape: seq<Option<byte>>, base: nat) {
    base + |bytes| <= |tape| && forall k :: 0 <= k < |bytes| ==> tape[base + k] == Some(bytes[k])
  }

  /** The reassembler is at work on `tape`, whose bytes so far end at index `end` and which is
      `finished` once that end is final. Output began at index `base`. */
  ghost predicate Faithful(r: Reassembler, tape: seq<Option<byte>>, base: nat, end: nat, finished: bool) {
    && r.Valid() && r.Placed()
    && Agrees(r.list, tape)
    && AllRespect(r.list, end, finished)
    && base + |r.output.accepted| == r.top <= end
    && ReadsFrom(r.output.accepted, tape, base)
    && (r.output.ended ==> finished && r.top == end)
  }

  lemma PopFrontFaithful(l: seq<Piece>, size: nat, tape: seq<Option<byte>>, end: nat, finished: bool)
    requires l != [] && Sorted(l) && Agrees(l, tape) && AllRespect(l, end, finished)
    requires size < |l[0].data| ==> |l| == 1
    requires l[0].start <= end
    ensures
      var (p, rest) := PopFront(l, size);
      && Sorted(rest) && Agrees(rest, tape) && AllRespect(rest, end, finished)
      && CutFrom(p, tape) && Respects(p, end, finished) && p.End() <= end
  {
    hide ByteAt, Agrees;
    var (p, rest) := PopFront(l, size);
    AgreesPieces(l, tape);
    assert CutFrom(l[0], tape) && Respects(l[0], end, finished);
    if size < |l[0].data| {
      assert rest == [Piece(l[0].start + size, l[0].data[size..], l[0].eof)];
      assert CutFrom(rest[0], tape) by {
        forall k | 0 <= k < |rest[0].data| ensures tape[rest[0].start + k] == Some(rest[0].data[k]) {
          assert tape[l[0].start + (size + k)] == Some(l[0].data[size + k]);
        }
      }
    }
    AgreesPieces(rest, tape);
  }

  lemma ReadsFromAppend(bytes: seq<byte>, more: Piece, tape: seq<Option<byte>>, base: nat)
    requires ReadsFrom(bytes, tape, base) && CutFrom(more, tape) && more.start == base + |bytes|
    ensures ReadsFrom(bytes + more.data, tape, base)
  {
  }

  lemma ReleaseFaithful(r: Reassembler, l: seq<Piece>, tape: seq<Option<byte>>, base: nat, end: nat, finished: bool)
    requires Faithful(r, tape, base, end, finished)
    requires Sorted(l) && l != [] && l[0].start == r.top
    requires Bounded(l, r.top, r.Limit(), r.Limit() + r.capacity - 1)
    requires Agrees(l, tape) && AllRespect(l, end, finished)
    ensures Faithful(r.Release(l), tape, base, end, finished)
  {
    hide ByteAt, Agrees;
    ReleaseKeeps(r, l);
    assert |l| > 1 ==> l[0].End() < l[1].start <= r.Limit();
    PopFrontFaithful(l, r.output.RemainingCapacity(), tape, end, finished);
    var p := PopFront(l, r.output.RemainingCapacity()).0;
    ReadsFromAppend(r.output.accepted, p, tape, base);
    assert r.Release(l).output.accepted == r.output.accepted + p.data;
  }

  lemma AbsorbFaithful(r: Reassembler, b: Piece, tape: seq<Option<byte>>, base: nat, end: nat, finished: bool)
    requires Faithful(r, tape, base, end, finished)
    requires Admissible(r, b) && CutFrom(b, tape) && Respects(b, end, finished)
    ensures Faithful(r.Absorb(b), tape, base, end, finished)
  {
    hide Push, ByteAt, Agrees, Reassembler.Release;
    AbsorbKeeps(r, b);
    PushUnion(r.list, b, tape);
    PushEof(r.list, b, end, finished);
    var l := Push(r.list, b);
    if l[0].start == r.top {
      PushBounded(r.list, b, r.top, r.Limit(), r.Limit() + r.capacity - 1);
      ReleaseFaithful(r, l, tape, base, end, finished);
    }
  }

  /** Cutting a piece down keeps it true to the tape. */
  lemma CutFromSlice(p: Piece, tape: seq<Option<byte>>, from: nat, to: nat, eof: bool)
    requires CutFrom(p, tape) && from <= to <= |p.data|
    ensures CutFrom(Piece(p.start + from, p.data[from..to], eof), tape)
  {
    forall k | 0 <= k < to - from ensures p.data != [] && tape[p.start + from + k] == Some(p.data[from..to][k]) {
      assert tape[p.start + (from + k)] == Some(p.data[from + k]);
    }
  }

  /** What a push admits: nothing if the data lies before `top` or starts at or past the window's
      edge; else the part from `top` on, as much as there is room for, marked as the end exactly if the
      data was and none of its end is cut off. */
  lemma AdmittedExact(r: Reassembler, data: seq<byte>, index: nat, eof: bool)
    requires r.Valid()
    ensures
      var a, from, end := r.Admitted(data, index, eof), Max(index, r.top), index + |data|;
      && (a.Some? <==> r.top <= end && from < r.Limit())
      && (a.Some? ==>
            && a.value.start == from && a.value.End() == Min(end, from + r.CurrentCapacity())
            && a.value.data == data[from - index..a.value.End() - index]
            && (a.value.eof <==> eof && a.value.End() == end))
  {
    var a, from, room := r.Admitted(data, index, eof), Max(index, r.top) - index, r.CurrentCapacity();
    if a.Some? {
      var d := if index < r.top then data[r.top - index..] else data;
      assert d == data[from..];
      assert d[..Min(|d|, room)] == data[from..from + Min(|d|, room)];
    }
  }

  lemma AdmittedFaithful(r: Reassembler, data: seq<byte>, index: nat, eof: bool, tape: seq<Option<byte>>, end: nat,
                         finished: bool)
    requires r.Valid() && r.top <= end
    requires CutFrom(Piece(index, data, eof), tape) && Respects(Piece(index, data, eof), end, finished)
    requires r.Admitted(data, index, eof).Some?
    ensures
      var b := r.Admitted(data, index, eof).value;
      CutFrom(b, tape) && Respects(b, end, finished)
  {
    hide Reassembler.Admitted, CutFrom;
    var b, from := r.Admitted(data, index, eof).value, Max(index, r.top) - index;
    AdmittedExact(r, data, index, eof);
    CutFromSlice(Piece(index, data, eof), tape, from, from + |b.data|, b.eof);
    assert b == Piece(index + from, data[from..from + |b.data|], b.eof);
  }

  /** Any substring cut from the stream, in any order and however often, keeps the output a prefix of
      the stream and the input open until that prefix is the whole stream. */
  lemma PushFaithful(r: Reassembler, data: seq<byte>, index: nat, eof: bool,
                     tape: seq<Option<byte>>, base: nat, end: nat, finished: bool)
    requires Faithful(r, tape, base, end, finished)
    requires CutFrom(Piece(index, data, eof), tape) && Respects(Piece(index, data, eof), end, finished)
    ensures Faithful(r.PushSubstring(data, index, eof), tape, base, end, finished)
  {
    hide Reassembler.Absorb, Agrees;
    var a := r.Admitted(data, index, eof);
    if a.Some? {
      AdmittedFaithful(r, data, index, eof, tape, end, finished);
      AbsorbFaithful(r, a.value, tape, base, end, finished);
    }
  }

  lemma ReadFaithful(r: Reassembler, n: nat, tape: seq<Option<byte>>, base: nat, end: nat, finished: bool)
    requires Faithful(r, tape, base, end, finished) && n <= r.output.BufferSize()
    ensures Faithful(r.Read(n), tape, base, end, finished)
  {
    ReadKeeps(r, n);
  }

  // ----- exactly what a push does -----

  /** How `r'` comes out of `r` at index `i`, when the list holds `l` before anything is moved: bytes
      below the new `top` went to the output in order, all others wait, and `top` stops only at a
      missing byte or at the edge of the window. */
  ghost predicate Moved(r: Reassembler, l: seq<Piece>, r': Reassembler, i: nat)
    requires r.Valid()
  {
    var n := |r.output.accepted|;
    && r'.top >= r.top
    && r.output.accepted <= r'.output.accepted && |r'.output.accepted| == n + (r'.top - r.top)
    && ByteAt(r'.list, i) == (if i < r'.top then None else ByteAt(l, i))
    && (r.top <= i < r'.top ==> ByteAt(l, i) == Some(r'.output.accepted[n + (i - r.top)]))
    && (r'.top == r.Limit() || ByteAt(l, r'.top) == None)
  }

  /** Where the first piece ends, no other piece answers. */
  lemma BehindFirst(l: seq<Piece>, i: nat)
    requires Sorted(l) && l != [] && l[0].start <= i
    ensures ByteAt(l, i) == if i < l[0].End() then l[0].ByteAt(i) else ByteAt(l[1..], i)
    ensures i <= l[0].End() ==> ByteAt(l[1..], i) == None
  {
    assert forall k :: 1 <= k < |l| ==> l[0].End() < l[k].start;
    if i <= l[0].End() {
      ByteAtNone(l[1..], i);
    }
  }

  lemma BeforeAll(l: seq<Piece>, i: nat)
    requires forall k :: 0 <= k < |l| ==> i < l[k].start
    ensures ByteAt(l, i) == None
  {
    ByteAtNone(l, i);
  }

  lemma ReleaseWhole(r: Reassembler, l: seq<Piece>, i: nat)
    requires r.Valid() && Sorted(l) && l != [] && l[0].start == r.top && l[0].End() <= r.Limit()
    ensures Moved(r, l, r.Release(l), i)
  {
    hide ByteAt;
    var r' := r.Release(l);
    assert r'.list == l[1..] && r'.output.accepted == r.output.accepted + l[0].data;
    BehindFirst(l, l[0].End());
    if i >= r.top {
      BehindFirst(l, i);
    }
    if i < l[0].End() {
      assert forall k :: 0 <= k < |l[1..]| ==> l[0].End() < l[1..][k].start;
      BeforeAll(l[1..], i);
    }
  }

  lemma ReleasePart(r: Reassembler, p: Piece, i: nat)
    requires r.Valid() && p.start == r.top && p.End() > r.Limit()
    ensures Moved(r, [p], r.Release([p]), i)
  {
    var r', size := r.Release([p]), r.output.RemainingCapacity();
    assert r'.list == [Piece(p.start + size, p.data[size..], p.eof)];
    assert r'.output.accepted == r.output.accepted + p.data[..size];
  }

  lemma ReleaseExact(r: Reassembler, l: seq<Piece>, i: nat)
    requires r.Valid() && Sorted(l) && l != [] && l[0].start == r.top
    requires Bounded(l, r.top, r.Limit(), r.Limit() + r.capacity - 1)
    ensures Moved(r, l, r.Release(l), i)
  {
    hide Moved, Reassembler.Release;
    assert |l| > 1 ==> l[0].End() < l[1].start <= r.Limit();
    if l[0].End() <= r.Limit() {
      ReleaseWhole(r, l, i);
    } else {
      assert l == [l[0]];
      ReleasePart(r, l[0], i);
    }
  }

  lemma WaitExact(r: Reassembler, l: seq<Piece>, i: nat)
    requires r.Valid() && Sorted(l) && l != [] && l[0].start > r.top
    ensures Moved(r, l, r.(list := l), i)
  {
    assert forall k :: 1 <= k < |l| ==> l[0].End() < l[k].start;
    ByteAtNone(l, r.top);
    if i < r.top {
      ByteAtNone(l, i);
    }
  }

  /** The input ends when the first piece is at `top`, carries the mark and is moved as a whole. */
  ghost predicate Ends(r: Reassembler, l: seq<Piece>, r': Reassembler)
    requires l != []
  {
    r'.output.ended <==> r.output.ended || (l[0].start == r.top && l[0].eof && l[0].End() == r'.top)
  }

  lemma ReleaseEnds(r: Reassembler, l: seq<Piece>)
    requires r.Valid() && l != [] && l[0].start == r.top
    ensures Ends(r, l, r.Release(l))
  {
  }

  /** An admitted piece is merged in, then the longest run of bytes from `top` on that the output has
      room for moves there, and the input ends exactly with the last of them. */
  lemma AbsorbExact(r: Reassembler, b: Piece, i: nat)
    requires r.Valid() && r.Placed() && Admissible(r, b)
    ensures Moved(r, Push(r.list, b), r.Absorb(b), i)
    ensures Ends(r, Push(r.list, b), r.Absorb(b))
  {
    hide Push, Reassembler.Release;
    PushContents(r.list, b, 0);
    PushBounded(r.list, b, r.top, r.Limit(), r.Limit() + r.capacity - 1);
    var l := Push(r.list, b);
    if l[0].start == r.top {
      ReleaseExact(r, l, i);
      ReleaseEnds(r, l);
    } else {
      WaitExact(r, l, i);
    }
  }

  lemma AbsorbReaches(r: Reassembler, b: Piece)
    requires r.Valid() && r.Placed() && Admissible(r, b) && b.start == r.top
    ensures r.Absorb(b).top >= Min(b.End(), r.Limit())
  {
    hide Push, Reassembler.Absorb, Held;
    var l, end := Push(r.list, b), r.Absorb(b).top;
    AbsorbExact(r, b, end);
    PushHeld(r.list, b);
    HeldByteAt(l, end);
    assert end in Range(b.start, b.End()) ==> ByteAt(l, end).Some?;
  }

  /** Data that starts no later than what is expected is taken in as far as there is room. */
  lemma PushReaches(r: Reassembler, data: seq<byte>, index: nat, eof: bool)
    requires r.Valid() && r.Placed() && index <= r.top
    ensures r.PushSubstring(data, index, eof).top >= Min(index + |data|, r.Limit())
  {
    hide Reassembler.Absorb, Reassembler.Admitted;
    AdmittedExact(r, data, index, eof);
    match r.Admitted(data, index, eof)
    case None =>
    case Some(b) => AbsorbReaches(r, b);
  }

  // ----- what any push can do to the output -----

  /** The output `o'` continues `o`: nothing is unread, unwritten or reopened. */
  ghost predicate Continues(o: Stream, o': Stream) {
    && o'.Valid() && o'.capacity == o.capacity && o'.nread == o.nread && o'.error == o.error
    && o.accepted <= o'.accepted && (o.ended ==> o'.ended)
  }

  lemma ReleaseContinues(r: Reassembler, l: seq<Piece>)
    requires r.Valid() && l != []
    ensures Continues(r.output, r.Release(l).output) && r.Release(l).capacity == r.capacity
  {
  }

  lemma AbsorbContinues(r: Reassembler, b: Piece)
    requires r.Valid()
    ensures Continues(r.output, r.Absorb(b).output) && r.Absorb(b).capacity == r.capacity
  {
    hide Push, Reassembler.Release;
    ReleaseContinues(r, Push(r.list, b));
  }

  /** For any data at any index, cut from the stream or not. */
  lemma PushContinues(r: Reassembler, data: seq<byte>, index: nat, eof: bool)
    requires r.Valid()
    ensures
      var r' := r.PushSubstring(data, index, eof);
      Continues(r.output, r'.output) && r'.capacity == r.capacity
  {
    hide Reassembler.Absorb, Reassembler.Admitted;
    var a := r.Admitted(data, index, eof);
    if a.Some? {
      AbsorbContinues(r, a.value);
    }
  }

  // ----- whole runs -----

  datatype Event = Arrive(data: seq<byte>, index: nat, eof: bool) | Take(n: nat)

  /** An event that may happen on stream `s`: an excerpt arrives, marked only if it reaches the end,
      or the application takes bytes that are there. */
  ghost predicate Happens(s: seq<byte>, r: Reassembler, e: Event) {
    match e
    case Arrive(data, index, eof) =>
      index + |data| <= |s| && data == s[index..index + |data|] && (eof ==> index + |data| == |s|)
    case Take(n) => r.output.Valid() && n <= r.output.BufferSize()
  }

  function After(r: Reassembler, e: Event): Reassembler
    requires r.Valid() && (e.Take? ==> e.n <= r.output.BufferSize())
  {
    match e
    case Arrive(data, index, eof) => r.PushSubstring(data, index, eof)
    case Take(n) => r.Read(n)
  }

  ghost predicate StepAt(s: seq<byte>, events: seq<Event>, states: seq<Reassembler>, i: nat)
    requires |states| == |events| + 1 && i < |events|
  {
    && Happens(s, states[i], events[i])
    && (states[i].Valid() ==> states[i + 1] == After(states[i], events[i]))
  }

  ghost predicate IsRun(s: seq<byte>, capacity: nat, events: seq<Event>, states: seq<Reassembler>) {
    && |states| == |events| + 1 && states[0] == NewReassembler(capacity)
    && forall i :: 0 <= i < |events| ==> StepAt(s, events, states, i)
  }

  function TapeOf(s: seq<byte>): (tape: seq<Option<byte>>)
    ensures |tape| == |s| && forall k :: 0 <= k < |s| ==> tape[k] == Some(s[k])
  {
    seq(|s|, k requires 0 <= k < |s| => Some(s[k]))
  }

  lemma AfterFaithful(s: seq<byte>, r: Reassembler, e: Event)
    requires Faithful(r, TapeOf(s), 0, |s|, true) && Happens(s, r, e)
    ensures Faithful(After(r, e), TapeOf(s), 0, |s|, true) && After(r, e).capacity == r.capacity
  {
    match e
    case Arrive(data, index, eof) => PushFaithful(r, data, index, eof, TapeOf(s), 0, |s|, true);
    case Take(n) => ReadFaithful(r, n, TapeOf(s), 0, |s|, true);
  }

  lemma {:induction false} RunFaithful(s: seq<byte>, capacity: nat, events: seq<Event>, states: seq<Reassembler>,
                                       i: nat)
    requires IsRun(s, capacity, events, states) && i < |states|
    ensures Faithful(states[i], TapeOf(s), 0, |s|, true) && states[i].capacity == capacity
  {
    if i > 0 {
      RunFaithful(s, capacity, events, states, i - 1);
      assert StepAt(s, events, states, i - 1);
      AfterFaithful(s, states[i - 1], events[i - 1]);
    }
  }

  /** In every state of every run over stream `s`, whatever arrives in whatever order: the bytes put
      out are the first `top` bytes of `s`, the input is ended only when they are all of `s`, every
      waiting byte is the one `s` has there, and waiting and unread bytes stay below the bound. */
  lemma ReassemblyRun(s: seq<byte>, capacity: nat, events: seq<Event>, states: seq<Reassembler>, i: nat)
    requires IsRun(s, capacity, events, states) && i < |states|
    ensures
      var r := states[i];
      && r.top <= |s| && r.output.accepted == s[..r.top]
      && (r.output.ended ==> r.output.accepted == s)
      && (forall k: nat :: ByteAt(r.list, k).Some? ==> k < |s| && ByteAt(r.list, k) == Some(s[k]))
      && r.Valid() && (capacity > 0 ==> Memory(r) <= 2 * capacity - 1)
  {
    RunFaithful(s, capacity, events, states, i);
    if capacity > 0 {
      MemoryBound(states[i]);
    }
  }

  // ----- the object -----

  class StreamReassembler {
    const capacity: nat
    const output: ByteStream
    const bufferList: BufferStringList
    var topPointer: nat

    ghost function Repr(): set<object> {
      {this, bufferList} + output.Repr()
    }

    ghost predicate Valid()
      reads Repr()
    {
      output.Valid() && output.capacity == capacity
    }

    ghost function State(): Reassembler
      requires Valid()
      reads Repr()
    {
      Reassembler(topPointer, output.State(), capacity, bufferList.list)
    }

    constructor (capacity: nat)
      ensures Valid() && fresh(Repr()) && State() == NewReassembler(capacity)
    {
      this.capacity := capacity;
      output := new ByteStream(capacity);
      bufferList := new BufferStringList();
      topPointer := 0;
    }

    method CurrentCapacity() returns (n: nat)
      requires Valid()
      ensures n == State().CurrentCapacity()
    {
      var size := output.BufferSize();
      n := capacity - size;
    }

    method PushSubstring(data: seq<byte>, index: nat, eof: bool)
      requires Valid() && Sorted(bufferList.list)
      modifies Repr()
      ensures Valid() && State() == old(State()).PushSubstring(data, index, eof)
    {
      var dataRef, indexRef, eofRef := data, index, eof;
      if indexRef < topPointer {
        if indexRef + |dataRef| < topPointer {
          return;
        }
        dataRef := dataRef[topPointer - indexRef..];
        indexRef := topPointer;
      }
      var room := CurrentCapacity();
      if indexRef - topPointer + 1 > room {
        return;
      }
      if |dataRef| > room {
        dataRef := dataRef[..room];
        eofRef := false;
      }
      assert old(State()).Admitted(data, index, eof) == Some(Piece(indexRef, dataRef, eofRef));
      AbsorbPiece(dataRef, indexRef, eofRef);
    }

    method AbsorbPiece(data: seq<byte>, index: nat, eof: bool)
      requires Valid() && Sorted(bufferList.list)
      modifies Repr()
      ensures Valid() && State() == old(State()).Absorb(Piece(index, data, eof))
    {
      bufferList.PushBack(data, index, eof);
      if topPointer != bufferList.TopIndex() {
        return;
      }
      ReleaseFront();
    }

    method ReleaseFront()
      requires Valid() && bufferList.list != []
      modifies Repr()
      ensures Valid() && State() == old(State()).Release(old(bufferList.list))
    {
      var remain := output.RemainingCapacity();
      var bufferString := bufferList.PopUpBufferString(remain);
      topPointer := topPointer + |bufferString.data|;
      var _ := output.Write(bufferString.data);
      if bufferString.eof {
        output.EndInput();
      }
    }

    method UnassembledBytes() returns (n: nat)
      requires Valid() && Sorted(bufferList.list)
      ensures n == |Held(bufferList.list)|
    {
      n := bufferList.Size();
    }
  }
}
