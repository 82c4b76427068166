/** The cache of IP-to-Ethernet mappings with its expiry queue. */
module ArpCaches {
  import opened Types

  type EthernetAddress = seq<byte>

  datatype Expiry = Expiry(deadline: nat, ip: u32)

  datatype Cache = Cache(table: map<u32, EthernetAddress>, queue: seq<Expiry>)
  {
    function SetCache(ip: u32, mac: EthernetAddress, now: nat, lifetime: nat): Cache {
      var q := if ip in table then WithoutFirst(queue, ip) else queue;
      Cache(table[ip := mac], q + [Expiry(now + lifetime, ip)])
    }

    function GetCache(ip: u32): Option<EthernetAddress> {
      if ip in table then Some(table[ip]) else None
    }

    /** Drops entries from the front while their deadline is past. */
    function Clean(now: nat): Cache
      decreases |queue|
    {
      if queue != [] && queue[0].deadline < now
      then Cache(table - {queue[0].ip}, queue[1..]).Clean(now)
      else this
    }
  }

  function WithoutFirst(q: seq<Expiry>, ip: u32): seq<Expiry> {
    if q == [] then [] else if q[0].ip == ip then q[1..] else [q[0]] + WithoutFirst(q[1..], ip)
  }

  /** What one turn of the search finds. */
  lemma SearchFrom(q: seq<Expiry>, ip: u32, it: nat)
    requires it <= |q|
    ensures it == 0 ==> q[..it] + WithoutFirst(q[it..], ip) == WithoutFirst(q, ip)
    ensures it == |q| ==> q[..it] + WithoutFirst(q[it..], ip) == q
    ensures it < |q| && q[it].ip == ip ==> WithoutFirst(q[it..], ip) == q[it + 1..]
    ensures it < |q| && q[it].ip != ip ==>
      q[..it] + WithoutFirst(q[it..], ip) == q[..it + 1] + WithoutFirst(q[it + 1..], ip)
  {
    assert it == 0 ==> q[it..] == q;
    assert it < |q| ==> q[it..][1..] == q[it + 1..] && q[..it + 1] == q[..it] + [q[it]];
  }

  // ----- the reference: a log of what was learned when -----

  datatype Learned = Learned(time: nat, ip: u32, mac: EthernetAddress)

  /** The last thing learned about `ip`. */
  function Latest(log: seq<Learned>, ip: u32): Option<Learned> {
    if log == [] then None
    else if log[|log| - 1].ip == ip then Some(log[|log| - 1])
    else Latest(log[..|log| - 1], ip)
  }

  lemma LatestAppend(log: seq<Learned>, l: Learned, ip: u32)
    ensures Latest(log + [l], ip) == if l.ip == ip then Some(l) else Latest(log, ip)
  {
    assert (log + [l])[..|log|] == log;
  }

  /** What the log says is valid for `ip` when entries whose deadline lies before `cleaned` are gone. */
  function ValidAt(log: seq<Learned>, ip: u32, lifetime: nat, cleaned: nat): Option<EthernetAddress> {
    var l := Latest(log, ip);
    if l.Some? && l.value.time + lifetime >= cleaned then Some(l.value.mac) else None
  }

  // ----- the invariant -----

  /** Deadlines in order, and no address twice. */
  ghost predicate Ordered(q: seq<Expiry>) {
    forall i, j :: 0 <= i < j < |q| ==> q[i].deadline <= q[j].deadline && q[i].ip != q[j].ip
  }

  ghost predicate Queued(q: seq<Expiry>, ip: u32) {
    exists k :: 0 <= k < |q| && q[k].ip == ip
  }

  /** An entry of the queue stands for the last thing learned about its address. */
  ghost predicate Backed(c: Cache, log: seq<Learned>, lifetime: nat, e: Expiry) {
    && e.ip in c.table && e.deadline >= lifetime
    && Latest(log, e.ip) == Some(Learned(e.deadline - lifetime, e.ip, c.table[e.ip]))
  }

  /** Queue and table hold the same addresses, each as last learned; what is missing was never learned
      or its deadline lies before `gone`. */
  ghost predicate Matches(c: Cache, log: seq<Learned>, lifetime: nat, gone: nat) {
    && Ordered(c.queue)
    && (forall k :: 0 <= k < |c.queue| ==> Backed(c, log, lifetime, c.queue[k]))
    && (forall ip :: ip in c.table ==> Queued(c.queue, ip))
    && (forall ip: u32 :: ip !in c.table ==> Latest(log, ip).None? || Latest(log, ip).value.time + lifetime < gone)
  }

  ghost predicate DeadlinesWithin(q: seq<Expiry>, low: nat, high: nat) {
    forall k :: 0 <= k < |q| ==> low <= q[k].deadline <= high
  }

  /** The cache at time `now`, last cleaned at `cleaned`. */
  ghost predicate Current(c: Cache, log: seq<Learned>, lifetime: nat, cleaned: nat, now: nat) {
    cleaned <= now && Matches(c, log, lifetime, cleaned) && DeadlinesWithin(c.queue, cleaned, now + lifetime)
  }

  /** The cache agrees with the log: a lookup finds the last address learned exactly if it is valid. */
  lemma LookupAgrees(c: Cache, log: seq<Learned>, lifetime: nat, cleaned: nat, now: nat, ip: u32)
    requires Current(c, log, lifetime, cleaned, now)
    ensures c.GetCache(ip) == ValidAt(log, ip, lifetime, cleaned)
  {
    if ip in c.table {
      assert Queued(c.queue, ip);
      var k :| 0 <= k < |c.queue| && c.queue[k].ip == ip;
      assert Backed(c, log, lifetime, c.queue[k]);
    }
  }

  // ----- learning -----

  /** `r` is `q` without the entries for `ip`. */
  ghost predicate Without(r: seq<Expiry>, q: seq<Expiry>, ip: u32) {
    && Ordered(r) && !Queued(r, ip)
    && (forall k :: 0 <= k < |r| ==> r[k] in q)
    && (forall k :: 0 <= k < |q| && q[k].ip != ip ==> q[k] in r)
  }

  lemma WithoutHead(q: seq<Expiry>, ip: u32)
    requires q != [] && Ordered(q) && q[0].ip == ip
    ensures Without(q[1..], q, ip)
  {
    var r := q[1..];
    assert forall k :: 0 <= k < |r| ==> r[k] == q[k + 1];
    assert forall k :: 1 <= k < |q| ==> q[k] == r[k - 1];
  }

  lemma WithoutTail(q: seq<Expiry>, rest: seq<Expiry>, ip: u32)
    requires q != [] && Ordered(q) && q[0].ip != ip && Without(rest, q[1..], ip)
    ensures Without([q[0]] + rest, q, ip)
  {
    var r := [q[0]] + rest;
    forall k | 1 <= k < |r| ensures q[0].deadline <= r[k].deadline && q[0].ip != r[k].ip && r[k] in q {
      assert r[k] == rest[k - 1] && rest[k - 1] in q[1..];
      var j :| 0 <= j < |q[1..]| && q[1..][j] == r[k];
      assert q[j + 1] == r[k];
    }
    forall k | 0 <= k < |q| && q[k].ip != ip ensures q[k] in r {
      assert k > 0 ==> q[1..][k - 1] == q[k];
    }
  }

  lemma {:induction false} WithoutFirstExact(q: seq<Expiry>, ip: u32)
    requires Ordered(q)
    ensures Without(WithoutFirst(q, ip), q, ip)
  {
    if q != [] {
      if q[0].ip == ip {
        WithoutHead(q, ip);
      } else {
        WithoutFirstExact(q[1..], ip);
        WithoutTail(q, WithoutFirst(q[1..], ip), ip);
      }
    }
  }

  lemma AbsentUnqueued(c: Cache, log: seq<Learned>, lifetime: nat, gone: nat, ip: u32)
    requires Matches(c, log, lifetime, gone) && ip !in c.table
    ensures !Queued(c.queue, ip)
  {
    hide Latest, Ordered;
    forall k | 0 <= k < |c.queue| ensures c.queue[k].ip != ip {
      assert Backed(c, log, lifetime, c.queue[k]);
    }
  }

  lemma WithoutNone(q: seq<Expiry>, ip: u32)
    requires Ordered(q) && !Queued(q, ip)
    ensures Without(q, q, ip)
  {
  }

  /** The queue that a new entry for `ip` is appended to holds none for it yet. */
  lemma OldEntryGone(c: Cache, log: seq<Learned>, lifetime: nat, gone: nat, ip: u32)
    requires Matches(c, log, lifetime, gone)
    ensures Without(if ip in c.table then WithoutFirst(c.queue, ip) else c.queue, c.queue, ip)
  {
    hide Latest, Ordered, Queued, Backed, Without, WithoutFirst;
    if ip in c.table {
      WithoutFirstExact(c.queue, ip);
    } else {
      AbsentUnqueued(c, log, lifetime, gone, ip);
      WithoutNone(c.queue, ip);
    }
  }

  lemma LearnedLatest(log: seq<Learned>, l: Learned)
    ensures forall ip: u32 :: Latest(log + [l], ip) == if l.ip == ip then Some(l) else Latest(log, ip)
  {
    forall ip: u32 ensures Latest(log + [l], ip) == if l.ip == ip then Some(l) else Latest(log, ip) {
      LatestAppend(log, l, ip);
    }
  }

  lemma OthersStayBacked(c: Cache, log: seq<Learned>, lifetime: nat, l: Learned, q: seq<Expiry>, k: nat)
    requires forall j :: 0 <= j < |c.queue| ==> Backed(c, log, lifetime, c.queue[j])
    requires Without(q, c.queue, l.ip) && k < |q|
    ensures Backed(Cache(c.table[l.ip := l.mac], q + [Expiry(l.time + lifetime, l.ip)]), log + [l], lifetime, q[k])
  {
    assert q[k] in c.queue;
    var j :| 0 <= j < |c.queue| && c.queue[j] == q[k];
    assert Backed(c, log, lifetime, c.queue[j]);
    LatestAppend(log, l, q[k].ip);
  }

  lemma OthersStayQueued(q: seq<Expiry>, r: seq<Expiry>, e: Expiry, ip: u32)
    requires Without(r, q, e.ip) && (ip == e.ip || Queued(q, ip))
    ensures Queued(r + [e], ip)
  {
    if ip == e.ip {
      assert (r + [e])[|r|].ip == ip;
    } else {
      var j :| 0 <= j < |q| && q[j].ip == ip;
      assert q[j] in r;
      var k :| 0 <= k < |r| && r[k] == q[j];
      assert (r + [e])[k].ip == ip;
    }
  }

  lemma QueueExtended(q: seq<Expiry>, r: seq<Expiry>, e: Expiry, low: nat)
    requires Without(r, q, e.ip) && DeadlinesWithin(q, low, e.deadline) && low <= e.deadline
    ensures Ordered(r + [e]) && DeadlinesWithin(r + [e], low, e.deadline)
  {
    forall k | 0 <= k < |r| ensures low <= r[k].deadline <= e.deadline && r[k].ip != e.ip {
      assert r[k] in q;
      var j :| 0 <= j < |q| && q[j] == r[k];
    }
  }

  lemma SetCurrent(c: Cache, log: seq<Learned>, lifetime: nat, cleaned: nat, now: nat, l: Learned)
    requires Current(c, log, lifetime, cleaned, now) && l.time >= now
    ensures Current(c.SetCache(l.ip, l.mac, l.time, lifetime), log + [l], lifetime, cleaned, l.time)
  {
    hide Ordered, Queued, Without, Backed, Latest, WithoutFirst;
    var c' := c.SetCache(l.ip, l.mac, l.time, lifetime);
    var q, e := if l.ip in c.table then WithoutFirst(c.queue, l.ip) else c.queue, Expiry(l.time + lifetime, l.ip);
    OldEntryGone(c, log, lifetime, cleaned, l.ip);
    QueueExtended(c.queue, q, e, cleaned);
    forall k | 0 <= k < |c'.queue| ensures Backed(c', log + [l], lifetime, c'.queue[k]) {
      if k < |q| {
        OthersStayBacked(c, log, lifetime, l, q, k);
      } else {
        NewestBacked(c', log, lifetime, l);
      }
    }
    forall ip | ip in c'.table ensures Queued(c'.queue, ip) {
      OthersStayQueued(c.queue, q, e, ip);
    }
    LearnedLatest(log, l);
  }

  lemma NewestBacked(c: Cache, log: seq<Learned>, lifetime: nat, l: Learned)
    requires l.ip in c.table && c.table[l.ip] == l.mac
    ensures Backed(c, log + [l], lifetime, Expiry(l.time + lifetime, l.ip))
  {
    LatestAppend(log, l, l.ip);
  }

  // ----- forgetting -----

  lemma DropBacked(c: Cache, log: seq<Learned>, lifetime: nat, k: nat)
    requires Ordered(c.queue) && 0 < k < |c.queue| && Backed(c, log, lifetime, c.queue[k])
    ensures Backed(Cache(c.table - {c.queue[0].ip}, c.queue[1..]), log, lifetime, c.queue[k])
  {
    hide Latest;
    assert c.queue[0].ip != c.queue[k].ip;
  }

  lemma DropQueued(q: seq<Expiry>, ip: u32)
    requires q != [] && Queued(q, ip) && ip != q[0].ip
    ensures Queued(q[1..], ip)
  {
    var k :| 0 <= k < |q| && q[k].ip == ip;
    assert q[1..][k - 1].ip == ip;
  }

  lemma OrderedTail(q: seq<Expiry>)
    requires q != [] && Ordered(q)
    ensures Ordered(q[1..])
  {
  }

  lemma DropMatches(c: Cache, log: seq<Learned>, lifetime: nat, gone: nat)
    requires Matches(c, log, lifetime, gone) && c.queue != [] && c.queue[0].deadline < gone
    ensures Matches(Cache(c.table - {c.queue[0].ip}, c.queue[1..]), log, lifetime, gone)
  {
    hide Latest, Ordered, Queued;
    var d := Cache(c.table - {c.queue[0].ip}, c.queue[1..]);
    assert Backed(c, log, lifetime, c.queue[0]);
    OrderedTail(c.queue);
    forall k | 0 <= k < |d.queue| ensures Backed(d, log, lifetime, d.queue[k]) {
      assert d.queue[k] == c.queue[k + 1] && Backed(c, log, lifetime, c.queue[k + 1]);
      DropBacked(c, log, lifetime, k + 1);
    }
    forall ip | ip in d.table ensures Queued(d.queue, ip) {
      DropQueued(c.queue, ip);
    }
  }

  lemma {:induction false} CleanMatches(c: Cache, log: seq<Learned>, lifetime: nat, gone: nat, high: nat)
    requires Matches(c, log, lifetime, gone) && DeadlinesWithin(c.queue, 0, high)
    ensures Matches(c.Clean(gone), log, lifetime, gone) && DeadlinesWithin(c.Clean(gone).queue, gone, high)
    decreases |c.queue|
  {
    if c.queue != [] && c.queue[0].deadline < gone {
      DropMatches(c, log, lifetime, gone);
      CleanMatches(Cache(c.table - {c.queue[0].ip}, c.queue[1..]), log, lifetime, gone, high);
    }
  }

  lemma CleanCurrent(c: Cache, log: seq<Learned>, lifetime: nat, cleaned: nat, now: nat, t: nat)
    requires Current(c, log, lifetime, cleaned, now) && t >= now
    ensures Current(c.Clean(t), log, lifetime, t, t)
  {
    CleanMatches(c, log, lifetime, t, now + lifetime);
  }

  // ----- whole runs -----

  datatype Event = Learn(ip: u32, mac: EthernetAddress) | Sweep

  /** The cache, the log, the time of the last cleaning and the current time. */
  datatype Moment = Moment(cache: Cache, log: seq<Learned>, cleaned: nat, now: nat)

  predicate Follows(m: Moment, e: Event, lifetime: nat, m': Moment) {
    && m.now <= m'.now
    && match e
       case Learn(ip, mac) =>
         m' == Moment(m.cache.SetCache(ip, mac, m'.now, lifetime), m.log + [Learned(m'.now, ip, mac)], m.cleaned,
             m'.now)
       case Sweep => m' == Moment(m.cache.Clean(m'.now), m.log, m'.now, m'.now)
  }

  ghost predicate StepAt(events: seq<Event>, moments: seq<Moment>, lifetime: nat, i: nat)
    requires |moments| == |events| + 1 && i < |events|
  {
    Follows(moments[i], events[i], lifetime, moments[i + 1])
  }

  ghost predicate IsRun(events: seq<Event>, moments: seq<Moment>, lifetime: nat) {
    && |moments| == |events| + 1 && moments[0] == Moment(Cache(map[], []), [], 0, 0)
    && forall i :: 0 <= i < |events| ==> StepAt(events, moments, lifetime, i)
  }

  lemma {:induction false} RunCurrent(events: seq<Event>, moments: seq<Moment>, lifetime: nat, i: nat)
    requires IsRun(events, moments, lifetime) && i < |moments|
    ensures var m := moments[i]; Current(m.cache, m.log, lifetime, m.cleaned, m.now)
  {
    hide Current;
    if i == 0 {
      EmptyCurrent(lifetime);
    } else {
      RunCurrent(events, moments, lifetime, i - 1);
      assert StepAt(events, moments, lifetime, i - 1);
      var m, t := moments[i - 1], moments[i].now;
      match events[i - 1]
      case Learn(ip, mac) => SetCurrent(m.cache, m.log, lifetime, m.cleaned, m.now, Learned(t, ip, mac));
      case Sweep => CleanCurrent(m.cache, m.log, lifetime, m.cleaned, m.now, t);
    }
  }

  lemma EmptyCurrent(lifetime: nat)
    ensures Current(Cache(map[], []), [], lifetime, 0, 0)
  {
  }

  /** In every run with time that does not go back, a lookup gives the last address learned exactly if
      its deadline had not passed at the last cleaning; and each address in the table is in the expiry
      queue exactly once, in order of deadline. */
  lemma CacheRun(events: seq<Event>, moments: seq<Moment>, lifetime: nat, i: nat, ip: u32)
    requires IsRun(events, moments, lifetime) && i < |moments|
    ensures
      var m := moments[i];
      && m.cache.GetCache(ip) == ValidAt(m.log, ip, lifetime, m.cleaned)
      && Ordered(m.cache.queue) && (ip in m.cache.table <==> Queued(m.cache.queue, ip))
  {
    RunCurrent(events, moments, lifetime, i);
    var m := moments[i];
    LookupAgrees(m.cache, m.log, lifetime, m.cleaned, m.now, ip);
    assert forall k :: 0 <= k < |m.cache.queue| ==> Backed(m.cache, m.log, lifetime, m.cache.queue[k]);
  }

  // ----- the object -----

  class IpToEthernetCache {
    var table: map<u32, EthernetAddress>
    var queue: seq<Expiry>

    ghost function State(): Cache
      reads this
    {
      Cache(table, queue)
    }

    constructor ()
      ensures State() == Cache(map[], [])
    {
      table, queue := map[], [];
    }

    method SetCache(ip: u32, mac: EthernetAddress, now: nat, lifetime: nat)
      modifies this
      ensures State() == old(State()).SetCache(ip, mac, now, lifetime)
    {
      if ip in table {
        EraseFirst(ip);
      }
      table := table[ip := mac];
      queue := queue + [Expiry(now + lifetime, ip)];
    }

    /** The search-and-erase loop of `set_cache`. */
    method EraseFirst(ip: u32)
      modifies this`queue
      ensures queue == WithoutFirst(old(queue), ip)
    {
      hide WithoutFirst;
      var it := 0;
      SearchFrom(queue, ip, it);
      while it < |queue|
        invariant 0 <= it <= |queue| && queue == old(queue)
        invariant WithoutFirst(queue, ip) == queue[..it] + WithoutFirst(queue[it..], ip)
      {
        SearchFrom(queue, ip, it);
        if queue[it].ip == ip {
          queue := queue[..it] + queue[it + 1..];
          return;
        }
        it := it + 1;
      }
      SearchFrom(queue, ip, it);
    }

    function GetCache(ip: u32): Option<EthernetAddress>
      reads this
      ensures GetCache(ip) == State().GetCache(ip)
    {
      if ip in table then Some(table[ip]) else None
    }

    method TryCleanExpireCache(now: nat)
      modifies this
      ensures State() == old(State()).Clean(now)
    {
      while queue != []
        invariant State().Clean(now) == old(State()).Clean(now)
        decreases |queue|
      {
        if queue[0].deadline < now {
          table := table - {queue[0].ip};
          queue := queue[1..];
        } else {
          return;
        }
      }
    }
  }
}
