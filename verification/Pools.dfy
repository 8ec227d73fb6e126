/** The connection pool of connection_pool.cpp as a state machine over acquire, release, close and
    set_config, with the invariants that hold over every run. Times are in nanoseconds. */
module Pools {
  import opened Text
  import opened Numbers
  import opened Urls

  // ----- connections -----

  /** A connection handle; without a socket it is closed. */
  datatype Connection = Connection(socket: Option<nat>, scheme: string, host: string, port: nat) {
    predicate IsOpen() {
      socket.Some?
    }

    function Key(): string {
      MakeKey(scheme, host, port)
    }
  }

  function DefaultPort(url: Url): nat {
    if url.hasPort then url.port else if url.scheme == "https" then 443 else 80
  }

  function MakeKey(scheme: string, host: string, port: nat): string {
    scheme + "://" + host + ":" + ToDecimal(port)
  }

  ghost predicate IsLastColon(s: string, i: nat) {
    i < |s| && s[i] == ':' && ':' !in s[i + 1..]
  }

  lemma LastColonUnique(s: string, i: nat, j: nat)
    requires IsLastColon(s, i) && IsLastColon(s, j)
    ensures i == j
  {
    if i < j {
      InRest(s, i, j);
    } else if j < i {
      InRest(s, j, i);
    }
  }

  lemma InRest(s: string, i: nat, j: nat)
    requires i < j < |s|
    ensures s[j] in s[i + 1..]
  {
    assert s[i + 1..][j - i - 1] == s[j];
  }

  lemma HostPortColon(host: string, port: nat)
    ensures var s := host + ":" + ToDecimal(port);
            IsLastColon(s, |host|) && s[..|host|] == host && s[|host| + 1..] == ToDecimal(port)
  {
    var s := host + ":" + ToDecimal(port);
    assert s == host + (":" + ToDecimal(port));
    assert s[|host| + 1..] == ToDecimal(port);
    assert !IsDigit(':', 10);
  }

  lemma SchemePart(scheme: string, tail: string)
    requires IsHttpScheme(scheme)
    ensures var key := scheme + "://" + tail;
            key[4] == (if scheme == "http" then ':' else 's') && key[|scheme| + 3..] == tail
  {
  }

  lemma HostPortInjective(h1: string, p1: nat, h2: string, p2: nat)
    requires h1 + ":" + ToDecimal(p1) == h2 + ":" + ToDecimal(p2)
    ensures h1 == h2 && p1 == p2
  {
    hide IsLastColon;
    hide ToDecimal;
    HostPortColon(h1, p1);
    HostPortColon(h2, p2);
    LastColonUnique(h1 + ":" + ToDecimal(p1), |h1|, |h2|);
    ToDecimalInjective(p1, p2);
  }

  /** For http and https, equal keys mean equal origins, whatever the host text contains. */
  lemma KeyInjective(s1: string, h1: string, p1: nat, s2: string, h2: string, p2: nat)
    requires IsHttpScheme(s1) && IsHttpScheme(s2) && MakeKey(s1, h1, p1) == MakeKey(s2, h2, p2)
    ensures s1 == s2 && h1 == h2 && p1 == p2
  {
    hide ToDecimal;
    var t1, t2 := h1 + ":" + ToDecimal(p1), h2 + ":" + ToDecimal(p2);
    assert MakeKey(s1, h1, p1) == s1 + "://" + t1 && MakeKey(s2, h2, p2) == s2 + "://" + t2;
    SchemePart(s1, t1);
    SchemePart(s2, t2);
    hide MakeKey;
    HostPortInjective(h1, p1, h2, p2);
  }

  // ----- state -----

  datatype PoolEntry = PoolEntry(connection: Connection, lastUsed: int)

  datatype Config = Config(maxConnections: nat, maxPerHost: nat, idleTimeoutMs: int, healthCheckMs: int)

  type Buckets = map<string, seq<PoolEntry>>

  datatype Origin = Origin(scheme: string, host: string, port: nat)

  function OriginOf(c: Connection): Origin {
    Origin(c.scheme, c.host, c.port)
  }

  /** The origin of section 4.3.1 of RFC 9110: without a port it is 443 for https and 80 for http. */
  function OriginOfUrl(url: Url): Origin {
    Origin(url.scheme, url.host, if url.hasPort then url.port else if url.scheme == "https" then 443 else 80)
  }

  /** The pool's fields, and what the operating system and the callers hold: the sockets that are open, the
      origin every socket was opened to (sockets are numbered in the order of opening), the handles callers
      have acquired and not given back, and the latest clock reading. */
  datatype State = State(pool: Buckets, total: nat, config: Config, lastCheck: int,
                         open: set<nat>, origins: seq<Origin>, leased: map<nat, Connection>, clock: int)

  function SocketOf(e: PoolEntry): nat {
    if e.connection.socket.Some? then e.connection.socket.value else 0
  }

  function SocketsIn(entries: seq<PoolEntry>): set<nat> {
    set e | e in entries :: SocketOf(e)
  }

  /** The sockets held by the pool. */
  function Pooled(pool: Buckets): set<nat> {
    set k, e | k in pool && e in pool[k] :: SocketOf(e)
  }

  // ----- pruning -----

  /** duration_cast<milliseconds>, which truncates toward zero */
  function Millis(ns: int): int {
    if ns >= 0 then ns / 1_000_000 else -(-ns / 1_000_000)
  }

  predicate Idle(e: PoolEntry, now: int, timeoutMs: int) {
    Millis(now - e.lastUsed) >= timeoutMs
  }

  /** entries without the idle ones, in order */
  function Keep(entries: seq<PoolEntry>, now: int, timeoutMs: int): seq<PoolEntry> {
    if entries == [] then []
    else
      var kept := Keep(entries[..|entries| - 1], now, timeoutMs);
      var e := entries[|entries| - 1];
      if Idle(e, now, timeoutMs) then kept else kept + [e]
  }

  function KeepAll(pool: Buckets, now: int, timeoutMs: int): Buckets {
    map k | k in pool && Keep(pool[k], now, timeoutMs) != [] :: Keep(pool[k], now, timeoutMs)
  }

  /** The sockets closed by pruning. */
  function IdleSockets(pool: Buckets, now: int, timeoutMs: int): set<nat> {
    set k, e | k in pool && e in pool[k] && Idle(e, now, timeoutMs) :: SocketOf(e)
  }

  function Minus(a: nat, b: nat): nat {
    if a < b then 0 else a - b
  }

  /** Whether prune_idle gets past the health-check interval. */
  predicate PruneDue(s: State, now: int, force: bool) {
    force || (s.config.healthCheckMs > 0 && Millis(now - s.lastCheck) >= s.config.healthCheckMs)
  }

  function Prune(s: State, now: int, force: bool): State {
    if !PruneDue(s, now, force) then s.(clock := now)
    else if s.config.idleTimeoutMs <= 0 then s.(clock := now, lastCheck := now)
    else
      var idle := IdleSockets(s.pool, now, s.config.idleTimeoutMs);
      s.(clock := now, lastCheck := now, pool := KeepAll(s.pool, now, s.config.idleTimeoutMs),
         total := Minus(s.total, |idle|), open := s.open - idle)
  }

  // ----- operations -----

  function Close(s: State, socket: nat): State {
    s.(open := s.open - {socket}, leased := s.leased - {socket})
  }

  /** Pop entries from the back up to and including the first open one; None when none is open. */
  function PopOpen(entries: seq<PoolEntry>): (r: (seq<PoolEntry>, Option<Connection>))
    ensures |r.0| <= |entries| && (r.1.Some? ==> r.1.value.IsOpen())
  {
    if entries == [] then ([], None)
    else
      var e, front := entries[|entries| - 1], entries[..|entries| - 1];
      if e.connection.IsOpen() then (front, Some(e.connection)) else PopOpen(front)
  }

  function WithBucket(pool: Buckets, key: string, entries: seq<PoolEntry>): Buckets {
    if entries == [] then pool - {key} else pool[key := entries]
  }

  /** A new connection, or None when connecting throws. */
  function Open(s: State, url: Url, reachable: bool): (State, Option<Connection>) {
    var socket := |s.origins|;
    var c := Connection(Some(socket), url.scheme, url.host, DefaultPort(url));
    if !reachable then (s, None)
    else (s.(open := s.open + {socket}, origins := s.origins + [OriginOf(c)], leased := s.leased[socket := c]), Some(c))
  }

  /** Take the last open connection of the bucket for the URL's origin, or else open a new one. */
  function Acquire(s: State, url: Url, now: int, reachable: bool): (State, Option<Connection>) {
    var p := Prune(s, now, false);
    var key := MakeKey(url.scheme, url.host, DefaultPort(url));
    if key !in p.pool then Open(p, url, reachable)
    else
      var (rest, found) := PopOpen(p.pool[key]);
      var q := p.(pool := WithBucket(p.pool, key, rest), total := Minus(p.total, |p.pool[key]| - |rest|));
      if found.None? then Open(q, url, reachable)
      else (q.(leased := q.leased[found.value.socket.value := found.value]), found)
  }

  function BucketOf(pool: Buckets, key: string): seq<PoolEntry> {
    if key in pool then pool[key] else []
  }

  /** Give a leased connection back; `later` is the clock reading when it is put into its bucket. */
  function Release(s: State, socket: nat, keepAlive: bool, now: int, later: int): State
    requires socket in s.leased
  {
    var c := s.leased[socket];
    if !keepAlive then Close(s, socket)
    else
      var p := Prune(s, now, false);
      var entries := BucketOf(p.pool, c.Key());
      if (p.config.maxConnections > 0 && p.total >= p.config.maxConnections)
         || (p.config.maxPerHost > 0 && |entries| >= p.config.maxPerHost)
      then Close(p, socket)
      else
        p.(pool := p.pool[c.Key() := entries + [PoolEntry(c, later)]], total := p.total + 1,
           leased := p.leased - {socket}, clock := later)
  }

  datatype Op =
    | DoAcquire(url: Url, now: int, reachable: bool)
    | DoRelease(socket: nat, keepAlive: bool, now: int, later: int)
    | DoClose(socket: nat)
    | DoPrune(now: int, force: bool)
    | DoSetConfig(config: Config)

  /** What a caller can do: the clock never runs backwards, URLs are http or https, and only leased
      connections are given back or closed. */
  ghost predicate Enabled(s: State, op: Op) {
    match op
    case DoAcquire(url, now, _) => s.clock <= now && IsHttpScheme(url.scheme)
    case DoRelease(socket, _, now, later) => s.clock <= now <= later && socket in s.leased
    case DoClose(socket) => socket in s.leased
    case DoPrune(now, _) => s.clock <= now
    case DoSetConfig(_) => true
  }

  function Step(s: State, op: Op): State
    requires op.DoRelease? ==> op.socket in s.leased
  {
    match op
    case DoAcquire(url, now, reachable) => Acquire(s, url, now, reachable).0
    case DoRelease(socket, keepAlive, now, later) => Release(s, socket, keepAlive, now, later)
    case DoClose(socket) => Close(s, socket)
    case DoPrune(now, force) => Prune(s, now, force)
    case DoSetConfig(config) => s.(config := config)
  }

  function Start(config: Config, now: int): State {
    State(map[], 0, config, now, {}, [], map[], now)
  }

  // ----- invariants -----

  ghost predicate GoodConnection(c: Connection, origins: seq<Origin>, open: set<nat>) {
    c.IsOpen() && c.socket.value < |origins| && OriginOf(c) == origins[c.socket.value]
    && IsHttpScheme(c.scheme) && c.socket.value in open
  }

  ghost predicate Distinct(entries: seq<PoolEntry>) {
    forall i, j :: 0 <= i < j < |entries| ==> SocketOf(entries[i]) != SocketOf(entries[j])
  }

  /** Oldest first. */
  ghost predicate Sorted(entries: seq<PoolEntry>) {
    forall i, j :: 0 <= i < j < |entries| ==> entries[i].lastUsed <= entries[j].lastUsed
  }

  ghost predicate GoodEntry(key: string, e: PoolEntry, origins: seq<Origin>, open: set<nat>, clock: int) {
    GoodConnection(e.connection, origins, open) && e.connection.Key() == key && e.lastUsed <= clock
  }

  ghost predicate GoodBucket(key: string, entries: seq<PoolEntry>, origins: seq<Origin>, open: set<nat>, clock: int) {
    && entries != [] && Distinct(entries) && Sorted(entries)
    && (forall e :: e in entries ==> GoodEntry(key, e, origins, open, clock))
  }

  ghost predicate GoodBuckets(s: State) {
    forall k :: k in s.pool ==> GoodBucket(k, s.pool[k], s.origins, s.open, s.clock)
  }

  ghost predicate GoodLeases(s: State) {
    forall x :: x in s.leased ==> s.leased[x].socket == Some(x) && GoodConnection(s.leased[x], s.origins, s.open)
  }

  /** Open sockets are pooled or leased, never both, and the counter counts the pooled ones. */
  ghost predicate Balanced(pooled: set<nat>, leased: set<nat>, open: set<nat>, total: nat) {
    pooled !! leased && open == pooled + leased && total == |pooled|
  }

  ghost predicate Accounted(s: State) {
    Balanced(Pooled(s.pool), s.leased.Keys, s.open, s.total)
  }

  ghost predicate Inv(s: State) {
    GoodBuckets(s) && GoodLeases(s) && Accounted(s)
  }

  ghost predicate WithinLimits(s: State) {
    && (s.config.maxConnections > 0 ==> s.total <= s.config.maxConnections)
    && (s.config.maxPerHost > 0 ==> forall k :: k in s.pool ==> |s.pool[k]| <= s.config.maxPerHost)
  }

  // ----- pruning keeps the invariant -----

  lemma {:induction false} KeepMembers(entries: seq<PoolEntry>, now: int, timeoutMs: int)
    ensures forall e :: e in Keep(entries, now, timeoutMs) <==> e in entries && !Idle(e, now, timeoutMs)
    ensures |Keep(entries, now, timeoutMs)| <= |entries|
  {
    if entries != [] {
      var front := entries[..|entries| - 1];
      assert entries == front + [entries[|entries| - 1]];
      KeepMembers(front, now, timeoutMs);
    }
  }

  lemma {:induction false} KeepOrder(entries: seq<PoolEntry>, now: int, timeoutMs: int)
    ensures Distinct(entries) ==> Distinct(Keep(entries, now, timeoutMs))
    ensures Sorted(entries) ==> Sorted(Keep(entries, now, timeoutMs))
  {
    if entries != [] {
      var front, last := entries[..|entries| - 1], entries[|entries| - 1];
      KeepOrder(front, now, timeoutMs);
      KeepMembers(front, now, timeoutMs);
      var kept := Keep(front, now, timeoutMs);
      forall i | 0 <= i < |kept|
        ensures Distinct(entries) ==> SocketOf(kept[i]) != SocketOf(last)
        ensures Sorted(entries) ==> kept[i].lastUsed <= last.lastUsed
      {
        assert kept[i] in front;
        var j :| 0 <= j < |front| && front[j] == kept[i];
        assert entries[j] == kept[i];
      }
    }
  }

  lemma {:induction false} AllIdleKeepsNone(entries: seq<PoolEntry>, now: int, timeoutMs: int)
    requires forall e :: e in entries ==> Idle(e, now, timeoutMs)
    ensures Keep(entries, now, timeoutMs) == []
  {
    if entries != [] {
      assert entries[|entries| - 1] in entries;
      assert forall e :: e in entries[..|entries| - 1] ==> e in entries;
      AllIdleKeepsNone(entries[..|entries| - 1], now, timeoutMs);
    }
  }

  /** In a bucket ordered by age, pruning cuts off exactly a prefix: the idle entries. */
  lemma {:induction false} KeepIsSuffix(entries: seq<PoolEntry>, now: int, timeoutMs: int) returns (n: nat)
    requires Sorted(entries)
    ensures n <= |entries| && Keep(entries, now, timeoutMs) == entries[n..]
    ensures forall i :: 0 <= i < |entries| ==> (i < n <==> Idle(entries[i], now, timeoutMs))
  {
    hide Idle;
    hide Keep;
    n := |entries|;
    if entries == [] {
      KeepNothing(now, timeoutMs);
    } else if Idle(entries[|entries| - 1], now, timeoutMs) {
      OlderAreIdle(entries, now, timeoutMs);
      AllIdleKeepsNone(entries, now, timeoutMs);
    } else {
      var front, last := entries[..|entries| - 1], entries[|entries| - 1];
      n := KeepIsSuffix(front, now, timeoutMs);
      KeepLast(entries, now, timeoutMs);
      hide Sorted;
      assert entries[n..] == front[n..] + [last];
      assert forall i :: 0 <= i < |front| ==> front[i] == entries[i];
    }
  }

  lemma KeepNothing(now: int, timeoutMs: int)
    ensures Keep([], now, timeoutMs) == []
  {
  }

  lemma KeepLast(entries: seq<PoolEntry>, now: int, timeoutMs: int)
    requires entries != [] && !Idle(entries[|entries| - 1], now, timeoutMs)
    ensures Keep(entries, now, timeoutMs) == Keep(entries[..|entries| - 1], now, timeoutMs) + [entries[|entries| - 1]]
  {
  }

  lemma OlderAreIdle(entries: seq<PoolEntry>, now: int, timeoutMs: int)
    requires entries != [] && Sorted(entries) && Idle(entries[|entries| - 1], now, timeoutMs)
    ensures forall i :: 0 <= i < |entries| ==> Idle(entries[i], now, timeoutMs)
  {
    hide Millis;
    forall i | 0 <= i < |entries|
      ensures Idle(entries[i], now, timeoutMs)
    {
      MillisMonotone(now - entries[|entries| - 1].lastUsed, now - entries[i].lastUsed);
    }
  }

  lemma MillisMonotone(a: int, b: int)
    requires a <= b
    ensures Millis(a) <= Millis(b)
  {
  }

  lemma DistinctEntries(entries: seq<PoolEntry>, e: PoolEntry, f: PoolEntry)
    requires Distinct(entries) && e in entries && f in entries && SocketOf(e) == SocketOf(f)
    ensures e == f
  {
    hide SocketOf;
    var i :| 0 <= i < |entries| && entries[i] == e;
    var j :| 0 <= j < |entries| && entries[j] == f;
    assert i == j;
  }

  lemma SameSocketSameKey(s: State, k1: string, e1: PoolEntry, k2: string, e2: PoolEntry)
    requires GoodEntry(k1, e1, s.origins, s.open, s.clock) && GoodEntry(k2, e2, s.origins, s.open, s.clock)
    requires SocketOf(e1) == SocketOf(e2)
    ensures k1 == k2
  {
    hide MakeKey;
  }

  /** A socket sits in one bucket only, because its origin determines the key. */
  lemma SameSocketSameEntry(s: State, k1: string, e1: PoolEntry, k2: string, e2: PoolEntry)
    requires Inv(s) && k1 in s.pool && k2 in s.pool && e1 in s.pool[k1] && e2 in s.pool[k2]
    requires SocketOf(e1) == SocketOf(e2)
    ensures k1 == k2 && e1 == e2
  {
    assert GoodBucket(k1, s.pool[k1], s.origins, s.open, s.clock) &&
           GoodBucket(k2, s.pool[k2], s.origins, s.open, s.clock);
    hide Inv;
    hide GoodEntry;
    hide SocketOf;
    hide Distinct;
    SameSocketSameKey(s, k1, e1, k2, e2);
    DistinctEntries(s.pool[k1], e1, e2);
  }

  /** An entry that stays is not closed by way of another one. */
  lemma KeptIsNotClosed(s: State, now: int, timeoutMs: int, k: string, e: PoolEntry)
    requires Inv(s) && k in s.pool && e in s.pool[k] && !Idle(e, now, timeoutMs)
    ensures SocketOf(e) !in IdleSockets(s.pool, now, timeoutMs)
  {
    hide Inv;
    forall k', e' | k' in s.pool && e' in s.pool[k'] && Idle(e', now, timeoutMs)
      ensures SocketOf(e') != SocketOf(e)
    {
      if SocketOf(e') == SocketOf(e) {
        SameSocketSameEntry(s, k, e, k', e');
      }
    }
  }

  lemma PooledAfterPrune(s: State, now: int, timeoutMs: int)
    requires Inv(s)
    ensures var idle := IdleSockets(s.pool, now, timeoutMs);
            idle <= Pooled(s.pool) && Pooled(KeepAll(s.pool, now, timeoutMs)) == Pooled(s.pool) - idle
  {
    hide Inv;
    hide Keep;
    hide Idle;
    hide SocketOf;
    var idle, kept := IdleSockets(s.pool, now, timeoutMs), KeepAll(s.pool, now, timeoutMs);
    forall x | x in Pooled(kept)
      ensures x in Pooled(s.pool) - idle
    {
      var k, e :| k in kept && e in kept[k] && SocketOf(e) == x;
      KeepMembers(s.pool[k], now, timeoutMs);
      KeptIsNotClosed(s, now, timeoutMs, k, e);
    }
    forall x | x in Pooled(s.pool) - idle
      ensures x in Pooled(kept)
    {
      var k, e :| k in s.pool && e in s.pool[k] && SocketOf(e) == x;
      KeepMembers(s.pool[k], now, timeoutMs);
      assert k in kept && e in kept[k];
    }
  }

  lemma SubsetSize(a: set<nat>, b: set<nat>)
    requires a <= b
    ensures |b - a| == |b| - |a| && |a| <= |b|
  {
    assert (b - a) + a == b;
  }

  lemma KeptBucket(s: State, now: int, timeoutMs: int, k: string)
    requires Inv(s) && s.clock <= now && k in KeepAll(s.pool, now, timeoutMs)
    ensures k in s.pool && |KeepAll(s.pool, now, timeoutMs)[k]| <= |s.pool[k]|
    ensures GoodBucket(k, KeepAll(s.pool, now, timeoutMs)[k], s.origins,
                       s.open - IdleSockets(s.pool, now, timeoutMs), now)
  {
    hide Keep;
    hide IdleSockets;
    assert GoodBucket(k, s.pool[k], s.origins, s.open, s.clock);
    KeepMembers(s.pool[k], now, timeoutMs);
    KeepOrder(s.pool[k], now, timeoutMs);
    forall e | e in Keep(s.pool[k], now, timeoutMs)
      ensures SocketOf(e) !in IdleSockets(s.pool, now, timeoutMs)
    {
      KeptIsNotClosed(s, now, timeoutMs, k, e);
    }
  }

  /** A bucket stays good as long as its sockets stay open. */
  lemma BucketCarries(k: string, entries: seq<PoolEntry>, s: State, t: State)
    requires GoodBucket(k, entries, s.origins, s.open, s.clock)
    requires SocketsIn(entries) <= t.open && s.origins <= t.origins && s.clock <= t.clock
    ensures GoodBucket(k, entries, t.origins, t.open, t.clock)
  {
    hide MakeKey;
    forall e | e in entries
      ensures SocketOf(e) in t.open
    {
      assert SocketOf(e) in SocketsIn(entries);
    }
  }

  lemma BucketIsPooled(pool: Buckets, k: string)
    requires k in pool
    ensures SocketsIn(pool[k]) <= Pooled(pool)
  {
    hide SocketOf;
  }

  /** Buckets that did not change stay good. */
  lemma BucketsCarry(s: State, t: State, except: set<string>)
    requires GoodBuckets(s) && Pooled(t.pool) <= t.open && s.origins <= t.origins && s.clock <= t.clock
    requires forall k :: k in t.pool && k !in except ==> k in s.pool && t.pool[k] == s.pool[k]
    ensures forall k :: k in t.pool && k !in except ==> GoodBucket(k, t.pool[k], t.origins, t.open, t.clock)
  {
    hide GoodBucket;
    hide Pooled;
    hide SocketsIn;
    forall k | k in t.pool && k !in except
      ensures GoodBucket(k, t.pool[k], t.origins, t.open, t.clock)
    {
      BucketIsPooled(t.pool, k);
      BucketCarries(k, t.pool[k], s, t);
    }
  }

  lemma LeasesCarry(s: State, t: State)
    requires GoodLeases(s) && s.origins <= t.origins && t.leased.Keys <= t.open
    requires forall x :: x in t.leased && x in s.leased ==> t.leased[x] == s.leased[x]
    requires forall x :: x in t.leased && x !in s.leased ==>
               t.leased[x].socket == Some(x) && GoodConnection(t.leased[x], t.origins, t.open)
    ensures GoodLeases(t)
  {
  }

  lemma PoolIsOpen(s: State)
    requires Accounted(s)
    ensures Pooled(s.pool) <= s.open && s.leased.Keys <= s.open
  {
    hide Pooled;
  }

  /** Only the clock readings change. */
  lemma TickKeepsInv(s: State, t: State)
    requires Inv(s) && s.clock <= t.clock && t == s.(clock := t.clock, lastCheck := t.lastCheck)
    ensures Inv(t)
  {
    hide GoodBucket;
    hide GoodConnection;
    hide Pooled;
    hide Balanced;
    PoolIsOpen(t);
    BucketsCarry(s, t, {});
    LeasesCarry(s, t);
  }

  lemma KeptBuckets(s: State, t: State, now: int, ms: int)
    requires Inv(s) && s.clock <= now
    requires t.pool == KeepAll(s.pool, now, ms) && t.origins == s.origins && t.clock == now
    requires t.open == s.open - IdleSockets(s.pool, now, ms)
    ensures forall k :: k in t.pool ==> k in s.pool && |t.pool[k]| <= |s.pool[k]|
    ensures GoodBuckets(t)
  {
    hide Inv;
    hide GoodBucket;
    hide KeepAll;
    hide IdleSockets;
    forall k | k in t.pool
      ensures k in s.pool && |t.pool[k]| <= |s.pool[k]| && GoodBucket(k, t.pool[k], t.origins, t.open, t.clock)
    {
      KeptBucket(s, now, ms, k);
    }
  }

  lemma IdlePruneKeepsInv(s: State, t: State, now: int, ms: int)
    requires Inv(s) && s.clock <= now
    requires var idle := IdleSockets(s.pool, now, ms);
             t == s.(clock := now, lastCheck := now, pool := KeepAll(s.pool, now, ms), total := Minus(s.total, |idle|),
                     open := s.open - idle)
    ensures Inv(t) && t.total <= s.total
    ensures forall k :: k in t.pool ==> k in s.pool && |t.pool[k]| <= |s.pool[k]|
  {
    hide GoodBuckets;
    hide GoodConnection;
    hide KeepAll;
    hide IdleSockets;
    hide Pooled;
    PooledAfterPrune(s, now, ms);
    BalancedPrunes(Pooled(s.pool), s.leased.Keys, s.open, s.total, IdleSockets(s.pool, now, ms));
    assert Accounted(t);
    hide Balanced;
    PoolIsOpen(t);
    KeptBuckets(s, t, now, ms);
    LeasesCarry(s, t);
  }

  lemma {:induction false} PruneKeepsInv(s: State, now: int, force: bool)
    requires Inv(s) && s.clock <= now
    ensures var t := Prune(s, now, force);
            && Inv(t) && t.leased == s.leased && t.origins == s.origins && t.config == s.config && t.clock == now
            && t.total <= s.total && (WithinLimits(s) ==> WithinLimits(t))
  {
    hide Inv;
    hide KeepAll;
    hide IdleSockets;
    if PruneDue(s, now, force) && s.config.idleTimeoutMs > 0 {
      IdlePruneKeepsInv(s, Prune(s, now, force), now, s.config.idleTimeoutMs);
    } else {
      TickKeepsInv(s, Prune(s, now, force));
    }
  }

  // ----- the other operations keep the invariant -----

  lemma SetMove(a: set<nat>, b: set<nat>, x: nat)
    requires a !! b && x in a
    ensures (a - {x}) !! (b + {x}) && (a - {x}) + (b + {x}) == a + b
    ensures |b + {x}| == |b| + 1 && |a - {x}| == |a| - 1 && |a| > 0
  {
  }

  lemma SetDrop(a: set<nat>, b: set<nat>, x: nat)
    requires a !! b && x in b
    ensures a !! (b - {x}) && (a + b) - {x} == a + (b - {x})
  {
  }

  lemma SetAdd(a: set<nat>, b: set<nat>, x: nat)
    requires a !! b && x !in a + b
    ensures a !! (b + {x}) && (a + b) + {x} == a + (b + {x})
  {
  }

  lemma BalancedPrunes(pooled: set<nat>, leased: set<nat>, open: set<nat>, total: nat, idle: set<nat>)
    requires Balanced(pooled, leased, open, total) && idle <= pooled
    ensures |idle| <= total && Balanced(pooled - idle, leased, open - idle, total - |idle|)
  {
    SubsetSize(idle, pooled);
  }

  lemma KeysAfter(leased: map<nat, Connection>, x: nat, c: Connection)
    ensures (leased - {x}).Keys == leased.Keys - {x} && leased[x := c].Keys == leased.Keys + {x}
  {
  }

  lemma CloseKeepsInv(s: State, socket: nat)
    requires Inv(s) && socket in s.leased
    ensures Inv(Close(s, socket)) && (WithinLimits(s) ==> WithinLimits(Close(s, socket)))
  {
    hide GoodBucket;
    hide GoodConnection;
    hide Pooled;
    SetDrop(Pooled(s.pool), s.leased.Keys, socket);
    KeysAfter(s.leased, socket, s.leased[socket]);
    PoolIsOpen(Close(s, socket));
    BucketsCarry(s, Close(s, socket), {});
    LeasesCarry(s, Close(s, socket));
  }

  lemma PooledIsKnown(s: State)
    requires Inv(s)
    ensures |s.origins| !in s.open
  {
    hide MakeKey;
    forall k, e | k in s.pool && e in s.pool[k]
      ensures SocketOf(e) < |s.origins|
    {
      assert GoodBucket(k, s.pool[k], s.origins, s.open, s.clock);
    }
  }

  lemma FreshIsGood(c: Connection, origins: seq<Origin>, open: set<nat>)
    requires c.socket == Some(|origins|) && IsHttpScheme(c.scheme)
    ensures GoodConnection(c, origins + [OriginOf(c)], open + {|origins|})
  {
  }

  lemma BalancedOpens(pooled: set<nat>, leased: set<nat>, open: set<nat>, total: nat, x: nat)
    requires Balanced(pooled, leased, open, total) && x !in open
    ensures Balanced(pooled, leased + {x}, open + {x}, total)
  {
    SetAdd(pooled, leased, x);
  }

  lemma OpenAccounts(p: State, t: State, c: Connection, n: nat)
    requires Accounted(p) && n !in p.open
    requires t.pool == p.pool && t.total == p.total && t.open == p.open + {n} && t.leased == p.leased[n := c]
    ensures Accounted(t) && t.leased.Keys <= t.open && Pooled(t.pool) <= t.open && n !in p.leased
  {
    hide Pooled;
    hide Balanced;
    PoolIsOpen(p);
    KeysAfter(p.leased, n, c);
    BalancedOpens(Pooled(p.pool), p.leased.Keys, p.open, p.total, n);
    PoolIsOpen(t);
  }

  lemma OpenKeepsInv(p: State, c: Connection)
    requires Inv(p) && c.socket == Some(|p.origins|) && IsHttpScheme(c.scheme)
    ensures var t := p.(open := p.open + {|p.origins|}, origins := p.origins + [OriginOf(c)],
                        leased := p.leased[|p.origins| := c]);
            Inv(t) && (WithinLimits(p) ==> WithinLimits(t))
  {
    hide GoodBucket;
    hide GoodConnection;
    hide Accounted;
    hide Pooled;
    var n := |p.origins|;
    var t := p.(open := p.open + {n}, origins := p.origins + [OriginOf(c)], leased := p.leased[n := c]);
    FreshIsGood(c, p.origins, p.open);
    PooledIsKnown(p);
    OpenAccounts(p, t, c, n);
    BucketsCarry(p, t, {});
    LeasesCarry(p, t);
  }

  /** The pool without the last entry of the bucket `key`. */
  function PopLast(pool: Buckets, key: string): Buckets
    requires key in pool && pool[key] != []
  {
    WithBucket(pool, key, pool[key][..|pool[key]| - 1])
  }

  /** What is left in the buckets after a pop. */
  lemma LeftInBuckets(pool: Buckets, key: string, k: string, e: PoolEntry)
    requires key in pool && pool[key] != []
    ensures var last := pool[key][|pool[key]| - 1];
            k in pool && e in pool[k] && (k != key || e != last) ==>
              k in PopLast(pool, key) && e in PopLast(pool, key)[k]
  {
    var entries := pool[key];
    assert entries == entries[..|entries| - 1] + [entries[|entries| - 1]];
  }

  lemma PooledAfterPop(s: State, key: string)
    requires Inv(s) && key in s.pool && s.pool[key] != []
    ensures var x := SocketOf(s.pool[key][|s.pool[key]| - 1]);
            x in Pooled(s.pool) && Pooled(PopLast(s.pool, key)) == Pooled(s.pool) - {x}
  {
    hide SocketOf;
    hide Inv;
    hide PopLast;
    var entries, t := s.pool[key], PopLast(s.pool, key);
    var last := entries[|entries| - 1];
    assert last in entries;
    forall k, e | k in t && e in t[k]
      ensures k in s.pool && e in s.pool[k] && SocketOf(e) != SocketOf(last)
    {
      PoppedIsOther(s, key, k, e);
    }
    forall x | x in Pooled(s.pool) - {SocketOf(last)}
      ensures x in Pooled(t)
    {
      var k, e :| k in s.pool && e in s.pool[k] && SocketOf(e) == x;
      LeftInBuckets(s.pool, key, k, e);
    }
  }

  lemma PoppedIsOther(s: State, key: string, k: string, e: PoolEntry)
    requires Inv(s) && key in s.pool && s.pool[key] != []
    requires k in PopLast(s.pool, key) && e in PopLast(s.pool, key)[k]
    ensures k in s.pool && e in s.pool[k] && SocketOf(e) != SocketOf(s.pool[key][|s.pool[key]| - 1])
  {
    hide SocketOf;
    hide Inv;
    var last := s.pool[key][|s.pool[key]| - 1];
    LastIsAlone(s, key);
    assert last in s.pool[key];
    assert k == key ==> e in s.pool[key][..|s.pool[key]| - 1];
    if SocketOf(e) == SocketOf(last) {
      SameSocketSameEntry(s, k, e, key, last);
    }
  }

  lemma LastIsAlone(s: State, key: string)
    requires Inv(s) && key in s.pool && s.pool[key] != []
    ensures s.pool[key][|s.pool[key]| - 1] !in s.pool[key][..|s.pool[key]| - 1]
  {
    assert Distinct(s.pool[key]) by {
      assert GoodBucket(key, s.pool[key], s.origins, s.open, s.clock);
    }
  }

  lemma GoodIsOpen(c: Connection, s: State)
    requires GoodConnection(c, s.origins, s.open)
    ensures c.IsOpen() && c.socket.value in s.open
  {
  }

  lemma PoppedEntry(s: State, key: string)
    requires Inv(s) && key in s.pool && s.pool[key] != []
    ensures var entries := s.pool[key];
            var e, rest := entries[|entries| - 1], entries[..|entries| - 1];
            && e.connection.socket == Some(SocketOf(e)) && GoodConnection(e.connection, s.origins, s.open)
            && (rest != [] ==> GoodBucket(key, rest, s.origins, s.open, s.clock))
  {
    hide GoodConnection;
    hide MakeKey;
    var entries := s.pool[key];
    var e, rest := entries[|entries| - 1], entries[..|entries| - 1];
    assert GoodBucket(key, entries, s.origins, s.open, s.clock);
    assert e in entries && GoodEntry(key, e, s.origins, s.open, s.clock);
    assert forall f :: f in rest ==> f in entries;
    GoodIsOpen(e.connection, s);
  }

  lemma PopLastShape(pool: Buckets, key: string)
    requires key in pool && pool[key] != []
    ensures forall k :: k in PopLast(pool, key) && k !in {key} ==> k in pool && PopLast(pool, key)[k] == pool[k]
    ensures key in PopLast(pool, key) ==> pool[key][..|pool[key]| - 1] != []
    ensures key in PopLast(pool, key) ==> PopLast(pool, key)[key] == pool[key][..|pool[key]| - 1]
    ensures forall k :: k in PopLast(pool, key) ==> |PopLast(pool, key)[k]| <= |pool[k]|
  {
  }

  lemma PopAccounts(s: State, key: string)
    requires Inv(s) && key in s.pool && s.pool[key] != []
    ensures var e := s.pool[key][|s.pool[key]| - 1];
            && s.total > 0 && SocketOf(e) !in s.leased
            && Balanced(Pooled(PopLast(s.pool, key)), s.leased[SocketOf(e) := e.connection].Keys, s.open, s.total - 1)
  {
    var e := s.pool[key][|s.pool[key]| - 1];
    PooledAfterPop(s, key);
    hide GoodBuckets;
    hide GoodLeases;
    hide Pooled;
    hide PopLast;
    SetMove(Pooled(s.pool), s.leased.Keys, SocketOf(e));
    KeysAfter(s.leased, SocketOf(e), e.connection);
  }

  lemma {:induction false} PopKeepsInv(s: State, key: string)
    requires Inv(s) && key in s.pool && s.pool[key] != []
    ensures var e := s.pool[key][|s.pool[key]| - 1];
            var t := s.(pool := PopLast(s.pool, key), total := Minus(s.total, 1),
                        leased := s.leased[SocketOf(e) := e.connection]);
            Inv(t) && s.total > 0 && (WithinLimits(s) ==> WithinLimits(t))
  {
    hide GoodConnection;
    hide Pooled;
    hide MakeKey;
    hide Balanced;
    hide GoodBucket;
    hide PopLast;
    var entries := s.pool[key];
    var e := entries[|entries| - 1];
    var t := s.(pool := PopLast(s.pool, key), total := Minus(s.total, 1),
                leased := s.leased[SocketOf(e) := e.connection]);
    PoppedEntry(s, key);
    PopAccounts(s, key);
    PopLastShape(s.pool, key);
    PoolIsOpen(t);
    BucketsCarry(s, t, {key});
    LeasesCarry(s, t);
  }

  /** Under the invariant the last entry is open, so the loop over the bucket stops at once. */
  lemma PopOpenTakesLast(s: State, key: string)
    requires Inv(s) && key in s.pool
    ensures var entries := s.pool[key];
            entries != [] &&
            var e := entries[|entries| - 1];
            && PopOpen(entries) == (entries[..|entries| - 1], Some(e.connection))
            && e.connection.socket == Some(SocketOf(e))
  {
    hide MakeKey;
    var entries := s.pool[key];
    assert GoodBucket(key, entries, s.origins, s.open, s.clock);
    var e := entries[|entries| - 1];
    assert e in entries && GoodEntry(key, e, s.origins, s.open, s.clock);
  }

  lemma {:induction false} AcquireKeepsInv(s: State, url: Url, now: int, reachable: bool)
    requires Inv(s) && s.clock <= now && IsHttpScheme(url.scheme)
    ensures var (t, c) := Acquire(s, url, now, reachable);
            Inv(t) && (WithinLimits(s) ==> WithinLimits(t)) && t.config == s.config
  {
    hide Inv;
    hide Prune;
    hide WithinLimits;
    hide MakeKey;
    hide PopOpen;
    hide WithBucket;
    PruneKeepsInv(s, now, false);
    var p, key := Prune(s, now, false), MakeKey(url.scheme, url.host, DefaultPort(url));
    if key in p.pool {
      PopOpenTakesLast(p, key);
      PopKeepsInv(p, key);
    } else if reachable {
      OpenKeepsInv(p, Connection(Some(|p.origins|), url.scheme, url.host, DefaultPort(url)));
    }
  }

  lemma PooledAfterPush(pool: Buckets, key: string, e: PoolEntry)
    ensures Pooled(pool[key := BucketOf(pool, key) + [e]]) == Pooled(pool) + {SocketOf(e)}
  {
    hide SocketOf;
    var t := pool[key := BucketOf(pool, key) + [e]];
    assert key in t && e in t[key];
    forall x | x in Pooled(pool)
      ensures x in Pooled(t)
    {
      var k, f :| k in pool && f in pool[k] && SocketOf(f) == x;
      assert k in t && f in t[k];
    }
  }

  lemma DistinctPush(entries: seq<PoolEntry>, e: PoolEntry)
    requires Distinct(entries) && forall i :: 0 <= i < |entries| ==> SocketOf(entries[i]) != SocketOf(e)
    ensures Distinct(entries + [e])
  {
  }

  lemma SortedPush(entries: seq<PoolEntry>, e: PoolEntry)
    requires Sorted(entries) && forall i :: 0 <= i < |entries| ==> entries[i].lastUsed <= e.lastUsed
    ensures Sorted(entries + [e])
  {
  }

  lemma PushedBucket(p: State, socket: nat, later: int)
    requires Inv(p) && socket in p.leased && p.clock <= later
    ensures var key := p.leased[socket].Key();
            GoodBucket(key, BucketOf(p.pool, key) + [PoolEntry(p.leased[socket], later)], p.origins, p.open, later)
  {
    hide MakeKey;
    hide Pooled;
    hide GoodConnection;
    hide Balanced;
    var c := p.leased[socket];
    var e, entries := PoolEntry(c, later), BucketOf(p.pool, c.Key());
    assert c.Key() in p.pool ==> GoodBucket(c.Key(), entries, p.origins, p.open, p.clock);
    BucketAvoidsLeased(p, c.Key(), socket);
    assert forall i :: 0 <= i < |entries| ==>
           entries[i] in entries && GoodEntry(c.Key(), entries[i], p.origins, p.open, p.clock);
    DistinctPush(entries, e);
    SortedPush(entries, e);
    hide Distinct;
    hide Sorted;
  }

  lemma BucketAvoidsLeased(p: State, key: string, socket: nat)
    requires Inv(p) && socket in p.leased
    ensures forall e :: e in BucketOf(p.pool, key) ==> SocketOf(e) != socket
  {
    hide SocketOf;
    hide GoodBucket;
    forall e | e in BucketOf(p.pool, key)
      ensures SocketOf(e) != socket
    {
      assert SocketOf(e) in Pooled(p.pool);
    }
  }

  lemma PushAccounts(p: State, socket: nat, c: Connection, key: string, later: int)
    requires Inv(p) && socket in p.leased && c == p.leased[socket]
    ensures var pool := p.pool[key := BucketOf(p.pool, key) + [PoolEntry(c, later)]];
            Balanced(Pooled(pool), (p.leased - {socket}).Keys, p.open, p.total + 1)
  {
    hide GoodBuckets;
    hide BucketOf;
    hide Pooled;
    PooledAfterPush(p.pool, key, PoolEntry(c, later));
    assert c.socket == Some(socket);
    KeysAfter(p.leased, socket, c);
    BalancedMoves(Pooled(p.pool), p.leased.Keys, p.open, p.total, socket);
  }

  lemma BalancedMoves(pooled: set<nat>, leased: set<nat>, open: set<nat>, total: nat, x: nat)
    requires Balanced(pooled, leased, open, total) && x in leased
    ensures Balanced(pooled + {x}, leased - {x}, open, total + 1)
  {
    SetMove(leased, pooled, x);
  }

  lemma PushKeepsInv(p: State, socket: nat, later: int)
    requires Inv(p) && socket in p.leased && p.clock <= later
    ensures var c := p.leased[socket];
            Inv(p.(pool := p.pool[c.Key() := BucketOf(p.pool, c.Key()) + [PoolEntry(c, later)]], total := p.total + 1,
                   leased := p.leased - {socket}, clock := later))
  {
    hide Pooled;
    hide MakeKey;
    hide GoodBucket;
    hide GoodConnection;
    hide BucketOf;
    var c := p.leased[socket];
    var t := p.(pool := p.pool[c.Key() := BucketOf(p.pool, c.Key()) + [PoolEntry(c, later)]], total := p.total + 1,
                leased := p.leased - {socket}, clock := later);
    PushedBucket(p, socket, later);
    PushAccounts(p, socket, c, c.Key(), later);
    assert Accounted(t);
    hide Balanced;
    PoolIsOpen(t);
    BucketsCarry(p, t, {c.Key()});
    LeasesCarry(p, t);
  }

  lemma {:induction false} ReleaseKeepsInv(s: State, socket: nat, keepAlive: bool, now: int, later: int)
    requires Inv(s) && socket in s.leased && s.clock <= now <= later
    ensures Inv(Release(s, socket, keepAlive, now, later))
    ensures WithinLimits(s) ==> WithinLimits(Release(s, socket, keepAlive, now, later))
    ensures Release(s, socket, keepAlive, now, later).config == s.config
  {
    hide Inv;
    hide Prune;
    hide MakeKey;
    if keepAlive {
      PruneKeepsInv(s, now, false);
      CloseKeepsInv(Prune(s, now, false), socket);
      PushKeepsInv(Prune(s, now, false), socket, later);
    } else {
      CloseKeepsInv(s, socket);
    }
  }

  // ----- runs -----

  lemma StepKeepsInv(s: State, op: Op)
    requires Inv(s) && Enabled(s, op)
    ensures Inv(Step(s, op))
    ensures !op.DoSetConfig? && WithinLimits(s) ==> WithinLimits(Step(s, op)) && Step(s, op).config == s.config
  {
    hide Inv;
    hide WithinLimits;
    hide Acquire;
    hide Release;
    match op
    case DoAcquire(url, now, reachable) =>
      AcquireKeepsInv(s, url, now, reachable);
    case DoRelease(socket, keepAlive, now, later) =>
      ReleaseKeepsInv(s, socket, keepAlive, now, later);
    case DoClose(socket) =>
      CloseKeepsInv(s, socket);
    case DoPrune(now, force) =>
      PruneKeepsInv(s, now, force);
    case DoSetConfig(config) =>
      ConfigKeepsInv(s, config);
  }

  lemma ConfigKeepsInv(s: State, config: Config)
    requires Inv(s)
    ensures Inv(s.(config := config))
  {
  }

  /** Every operation of the run can be done in the state it meets. */
  ghost predicate CanRun(s: State, ops: seq<Op>)
    decreases |ops|
  {
    ops != [] ==> Enabled(s, ops[0]) && CanRun(Step(s, ops[0]), ops[1..])
  }

  ghost function RunOps(s: State, ops: seq<Op>): State
    requires CanRun(s, ops)
    decreases |ops|
  {
    if ops == [] then s else RunOps(Step(s, ops[0]), ops[1..])
  }

  lemma {:induction false} RunKeepsInv(s: State, ops: seq<Op>)
    requires Inv(s) && CanRun(s, ops)
    ensures Inv(RunOps(s, ops))
    ensures WithinLimits(s) && (forall op :: op in ops ==> !op.DoSetConfig?) ==>
              WithinLimits(RunOps(s, ops)) && RunOps(s, ops).config == s.config
    decreases |ops|
  {
    hide Inv;
    hide WithinLimits;
    hide Step;
    if ops != [] {
      assert ops[0] in ops && forall op :: op in ops[1..] ==> op in ops;
      StepKeepsInv(s, ops[0]);
      RunKeepsInv(Step(s, ops[0]), ops[1..]);
    }
  }

  /** Where a socket can be. */
  ghost predicate InPool(s: State, x: nat, key: string, i: nat) {
    key in s.pool && i < |s.pool[key]| && SocketOf(s.pool[key][i]) == x
  }

  /** Conservation: in every reachable state each socket ever opened is in exactly one of three places: at one
      position of the pool, with a caller, or closed; no bucket is empty and every pooled connection is open. */
  lemma {:induction false} Conservation(config: Config, start: int, ops: seq<Op>, x: nat)
    requires CanRun(Start(config, start), ops)
    ensures var s := RunOps(Start(config, start), ops);
            x < |s.origins| ==>
              && (x in s.open <==> x in s.leased || exists key, i: nat :: InPool(s, x, key, i))
              && !(x in s.leased && exists key, i: nat :: InPool(s, x, key, i))
              && (forall k1, i1: nat, k2, i2: nat ::
                    InPool(s, x, k1, i1) && InPool(s, x, k2, i2) ==> k1 == k2 && i1 == i2)
    ensures var s := RunOps(Start(config, start), ops);
            forall key :: key in s.pool ==> s.pool[key] != [] && forall e :: e in s.pool[key] ==> e.connection.IsOpen()
  {
    var s := RunOps(Start(config, start), ops);
    StartIsGood(config, start);
    RunKeepsInv(Start(config, start), ops);
    hide RunOps;
    PlaceInPool(s, x);
    forall key | key in s.pool
      ensures s.pool[key] != [] && forall e :: e in s.pool[key] ==> e.connection.IsOpen()
    {
      assert GoodBucket(key, s.pool[key], s.origins, s.open, s.clock);
    }
  }

  lemma StartIsGood(config: Config, start: int)
    ensures Inv(Start(config, start)) && WithinLimits(Start(config, start))
  {
    assert Pooled(map[]) == {};
  }

  lemma PlaceInPool(s: State, x: nat)
    requires Inv(s)
    ensures x in Pooled(s.pool) <==> exists key, i: nat :: InPool(s, x, key, i)
    ensures forall k1, i1: nat, k2, i2: nat :: InPool(s, x, k1, i1) && InPool(s, x, k2, i2) ==> k1 == k2 && i1 == i2
  {
    if x in Pooled(s.pool) {
      var k, e :| k in s.pool && e in s.pool[k] && SocketOf(e) == x;
      var i: nat :| i < |s.pool[k]| && s.pool[k][i] == e;
      assert InPool(s, x, k, i);
    }
    forall k1, i1: nat, k2, i2: nat | InPool(s, x, k1, i1) && InPool(s, x, k2, i2)
      ensures k1 == k2 && i1 == i2
    {
      SameSocketSameEntry(s, k1, s.pool[k1][i1], k2, s.pool[k2][i2]);
      assert GoodBucket(k1, s.pool[k1], s.origins, s.open, s.clock);
    }
  }
}
