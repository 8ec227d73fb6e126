/** What callers of the pool can rely on in every state its invariant describes: connections go back to their
    origin only, the most recently used one first, and the counter is the number of pooled entries. */
module PoolReuse {
  import opened Text
  import opened Urls
  import opened Pools

  // ----- keyed reuse -----

  /** What acquire takes from a bucket. */
  lemma TakenMatchesOrigin(p: State, url: Url)
    requires Inv(p) && IsHttpScheme(url.scheme)
    requires MakeKey(url.scheme, url.host, DefaultPort(url)) in p.pool
    ensures var key := MakeKey(url.scheme, url.host, DefaultPort(url));
            var (rest, found) := PopOpen(p.pool[key]);
            && found.Some? && found.value.socket.value in Pooled(p.pool) && found.value.socket.value !in p.leased
            && found.value.socket.value < |p.origins| && p.origins[found.value.socket.value] == OriginOfUrl(url)
  {
    PopOpenTakesLast(p, MakeKey(url.scheme, url.host, DefaultPort(url)));
    ReusedMatchesOrigin(p, url);
    hide MakeKey;
    hide Inv;
    hide PopOpen;
    hide Pooled;
    hide SocketOf;
  }

  /** An acquired connection is open, was not in anyone's hands, and its socket was opened to the origin of
      the requested URL; a new socket is opened only when pruning leaves none for that origin. */
  lemma AcquireMatchesOrigin(s: State, url: Url, now: int, reachable: bool)
    requires Inv(s) && s.clock <= now && IsHttpScheme(url.scheme) && Acquire(s, url, now, reachable).1.Some?
    ensures var (t, c) := Acquire(s, url, now, reachable);
            && c.value.IsOpen() && c.value.socket.value !in s.leased
            && t.leased == s.leased[c.value.socket.value := c.value]
            && c.value.socket.value < |t.origins| && t.origins[c.value.socket.value] == OriginOfUrl(url)
            && s.origins <= t.origins
            && (c.value.socket.value in Pooled(s.pool) <==>
                  MakeKey(url.scheme, url.host, DefaultPort(url)) in Prune(s, now, false).pool)
  {
    hide Prune;
    hide MakeKey;
    hide PopOpen;
    hide WithBucket;
    hide Pooled;
    hide Inv;
    hide WithinLimits;
    var p, key := Prune(s, now, false), MakeKey(url.scheme, url.host, DefaultPort(url));
    PruneKeepsInv(s, now, false);
    PrunedIsPooled(s, now, false);
    if key in p.pool {
      TakenMatchesOrigin(p, url);
    } else {
      FreshIsUnknown(s);
      FreshIsUnknown(p);
    }
  }

  /** The number of the next socket is nobody's. */
  lemma FreshIsUnknown(s: State)
    requires Inv(s)
    ensures |s.origins| !in s.leased && |s.origins| !in Pooled(s.pool)
  {
    hide GoodBuckets;
    hide GoodLeases;
    hide Pooled;
    PooledIsKnown(s);
    PoolIsOpen(s);
  }

  lemma PrunedIsPooled(s: State, now: int, force: bool)
    requires Inv(s) && s.clock <= now
    ensures Pooled(Prune(s, now, force).pool) <= Pooled(s.pool)
  {
    hide Pooled;
    hide KeepAll;
    hide IdleSockets;
    if PruneDue(s, now, force) && s.config.idleTimeoutMs > 0 {
      PooledAfterPrune(s, now, s.config.idleTimeoutMs);
    }
  }

  lemma KeyGivesOrigin(c: Connection, url: Url, origins: seq<Origin>, open: set<nat>)
    requires GoodConnection(c, origins, open) && IsHttpScheme(url.scheme)
    requires c.Key() == MakeKey(url.scheme, url.host, DefaultPort(url))
    ensures c.IsOpen() && c.socket.value < |origins| && origins[c.socket.value] == OriginOfUrl(url)
  {
    hide MakeKey;
    KeyInjective(c.scheme, c.host, c.port, url.scheme, url.host, DefaultPort(url));
  }

  lemma LastEntryIsKeyed(s: State, key: string)
    requires Inv(s) && key in s.pool
    ensures s.pool[key] != []
    ensures var c := s.pool[key][|s.pool[key]| - 1].connection;
            c.Key() == key && GoodConnection(c, s.origins, s.open)
  {
    hide MakeKey;
    hide GoodConnection;
    assert GoodBucket(key, s.pool[key], s.origins, s.open, s.clock);
    var e := s.pool[key][|s.pool[key]| - 1];
    assert e in s.pool[key] && GoodEntry(key, e, s.origins, s.open, s.clock);
  }

  lemma LastEntryIsPooled(s: State, key: string)
    requires Inv(s) && key in s.pool && s.pool[key] != []
    ensures var x := SocketOf(s.pool[key][|s.pool[key]| - 1]); x in Pooled(s.pool) && x !in s.leased
  {
    hide GoodBucket;
    hide GoodLeases;
    hide SocketOf;
    var e := s.pool[key][|s.pool[key]| - 1];
    assert e in s.pool[key];
    BucketIsPooled(s.pool, key);
    assert SocketOf(e) in SocketsIn(s.pool[key]);
  }

  lemma ReusedMatchesOrigin(p: State, url: Url)
    requires Inv(p) && IsHttpScheme(url.scheme)
    requires MakeKey(url.scheme, url.host, DefaultPort(url)) in p.pool
    ensures var entries := p.pool[MakeKey(url.scheme, url.host, DefaultPort(url))];
            entries != [] &&
            var e := entries[|entries| - 1];
            && e.connection.socket == Some(SocketOf(e)) && SocketOf(e) < |p.origins|
            && p.origins[SocketOf(e)] == OriginOfUrl(url)
            && SocketOf(e) in Pooled(p.pool) && SocketOf(e) !in p.leased
  {
    hide MakeKey;
    hide Inv;
    hide GoodConnection;
    hide SocketOf;
    hide Pooled;
    var key := MakeKey(url.scheme, url.host, DefaultPort(url));
    LastEntryIsKeyed(p, key);
    LastEntryIsPooled(p, key);
    PopOpenTakesLast(p, key);
    KeyGivesOrigin(p.pool[key][|p.pool[key]| - 1].connection, url, p.origins, p.open);
  }

  /** Over any run: whatever has happened before, acquire hands out a connection to the right origin. */
  lemma ReuseOverRuns(config: Config, start: int, ops: seq<Op>, url: Url, now: int, reachable: bool)
    requires CanRun(Start(config, start), ops + [DoAcquire(url, now, reachable)])
    ensures CanRun(Start(config, start), ops)
    ensures var s := RunOps(Start(config, start), ops);
            var (t, c) := Acquire(s, url, now, reachable);
            c.Some? ==> c.value.IsOpen() && c.value.socket.value < |t.origins|
                        && t.origins[c.value.socket.value] == OriginOfUrl(url) && c.value.socket.value !in s.leased
  {
    hide Acquire;
    StartIsGood(config, start);
    RunSplits(Start(config, start), ops, DoAcquire(url, now, reachable));
    RunKeepsInv(Start(config, start), ops);
    var s := RunOps(Start(config, start), ops);
    if Acquire(s, url, now, reachable).1.Some? {
      AcquireMatchesOrigin(s, url, now, reachable);
    }
  }

  lemma {:induction false} RunSplits(s: State, ops: seq<Op>, op: Op)
    requires CanRun(s, ops + [op])
    ensures CanRun(s, ops) && Enabled(RunOps(s, ops), op)
    decreases |ops|
  {
    hide Step;
    if ops != [] {
      assert (ops + [op])[1..] == ops[1..] + [op];
      RunSplits(Step(s, ops[0]), ops[1..], op);
    }
  }

  // ----- age -----

  /** The connection taken from the pool is the one most recently put into its bucket. */
  lemma AcquireTakesNewest(s: State, url: Url, now: int, reachable: bool)
    requires Inv(s) && s.clock <= now
    ensures var key := MakeKey(url.scheme, url.host, DefaultPort(url));
            var pool := Prune(s, now, false).pool;
            key in pool ==>
              exists e :: e in pool[key] && Acquire(s, url, now, reachable).1 == Some(e.connection)
                          && forall f :: f in pool[key] ==> f.lastUsed <= e.lastUsed
  {
    var p, key := Prune(s, now, false), MakeKey(url.scheme, url.host, DefaultPort(url));
    PruneKeepsInv(s, now, false);
    hide Prune;
    hide MakeKey;
    if key in p.pool {
      PopOpenTakesLast(p, key);
      assert GoodBucket(key, p.pool[key], p.origins, p.open, p.clock);
      var e := p.pool[key][|p.pool[key]| - 1];
      NewestIsLast(p.pool[key]);
      assert e in p.pool[key];
    }
  }

  lemma NewestIsLast(entries: seq<PoolEntry>)
    requires entries != [] && Sorted(entries)
    ensures forall f :: f in entries ==> f.lastUsed <= entries[|entries| - 1].lastUsed
  {
  }

  const NANOS_PER_MILLI := 1_000_000

  lemma MillisAtLeast(ns: int, ms: int)
    requires ms > 0
    ensures Millis(ns) >= ms <==> ns >= ms * NANOS_PER_MILLI
  {
  }

  /** Pruning is due when the health-check interval has passed since the last one; with a timeout it then shortens
      each bucket by exactly the entries unused for that long, and drops the buckets left with none. Otherwise the
      pool stays as it is. */
  lemma {:induction false} PruneCutsPrefix(s: State, now: int, key: string) returns (n: nat)
    requires Inv(s) && s.clock <= now && key in s.pool
    ensures var (idle, interval) := (s.config.idleTimeoutMs, s.config.healthCheckMs);
            var pool := Prune(s, now, false).pool;
            if idle > 0 && interval > 0 && now - s.lastCheck >= interval * NANOS_PER_MILLI then
              && n <= |s.pool[key]|
              && (forall i :: 0 <= i < |s.pool[key]| ==>
                    (i < n <==> now - s.pool[key][i].lastUsed >= idle * NANOS_PER_MILLI))
              && if n == |s.pool[key]| then key !in pool else key in pool && pool[key] == s.pool[key][n..]
            else pool == s.pool
  {
    hide Millis;
    hide KeepAll;
    hide Keep;
    hide IdleSockets;
    hide Inv;
    var idle, interval := s.config.idleTimeoutMs, s.config.healthCheckMs;
    n := 0;
    if interval > 0 {
      MillisAtLeast(now - s.lastCheck, interval);
    }
    if idle > 0 {
      n := CutOfBucket(s, now, key);
      KeptBucket(s.pool, now, idle, key);
    }
  }

  lemma KeptBucket(pool: Buckets, now: int, timeoutMs: int, key: string)
    requires key in pool
    ensures var (kept, all) := (Keep(pool[key], now, timeoutMs), KeepAll(pool, now, timeoutMs));
            (key in all <==> kept != []) && (key in all ==> all[key] == kept)
  {
    hide Keep;
  }

  lemma CutOfBucket(s: State, now: int, key: string) returns (n: nat)
    requires Inv(s) && key in s.pool && s.config.idleTimeoutMs > 0
    ensures var (entries, idle) := (s.pool[key], s.config.idleTimeoutMs);
            && n <= |entries| && Keep(entries, now, idle) == entries[n..]
            && forall i :: 0 <= i < |entries| ==> (i < n <==> now - entries[i].lastUsed >= idle * NANOS_PER_MILLI)
  {
    hide Millis;
    hide Keep;
    hide GoodLeases;
    hide Accounted;
    hide Idle;
    var entries, idle := s.pool[key], s.config.idleTimeoutMs;
    assert GoodBucket(key, entries, s.origins, s.open, s.clock);
    hide GoodBuckets;
    hide GoodEntry;
    n := KeepIsSuffix(entries, now, idle);
    forall i | 0 <= i < |entries|
      ensures Idle(entries[i], now, idle) <==> now - entries[i].lastUsed >= idle * NANOS_PER_MILLI
    {
      IdleIs(entries[i], now, idle);
    }
  }

  lemma IdleIs(e: PoolEntry, now: int, ms: int)
    requires ms > 0
    ensures Idle(e, now, ms) <==> now - e.lastUsed >= ms * NANOS_PER_MILLI
  {
    MillisAtLeast(now - e.lastUsed, ms);
    hide Millis;
  }

  // ----- the counter -----

  /** The sum of the bucket sizes, over a list of keys. */
  function BucketSizes(pool: Buckets, keys: seq<string>): nat {
    if keys == [] then 0 else |BucketOf(pool, keys[0])| + BucketSizes(pool, keys[1..])
  }

  function SocketsUnder(pool: Buckets, keys: seq<string>): set<nat> {
    if keys == [] then {} else SocketsIn(BucketOf(pool, keys[0])) + SocketsUnder(pool, keys[1..])
  }

  lemma {:induction false} DistinctSize(entries: seq<PoolEntry>)
    requires Distinct(entries)
    ensures |SocketsIn(entries)| == |entries|
  {
    if entries != [] {
      var front, e := entries[..|entries| - 1], entries[|entries| - 1];
      DistinctSize(front);
      assert forall f :: f in entries <==> f in front || f == e;
      assert SocketsIn(entries) == SocketsIn(front) + {SocketOf(e)};
      assert SocketOf(e) !in SocketsIn(front);
    }
  }

  lemma {:induction false} SocketsUnderAre(pool: Buckets, keys: seq<string>, x: nat)
    ensures x in SocketsUnder(pool, keys) <==> exists k :: k in keys && k in pool && x in SocketsIn(pool[k])
  {
    hide SocketsIn;
    if keys != [] {
      SocketsUnderAre(pool, keys[1..], x);
      assert forall k :: k in keys <==> k == keys[0] || k in keys[1..];
      assert keys[0] !in pool ==> SocketsIn(BucketOf(pool, keys[0])) == {} by {
        NoSockets();
      }
    }
  }

  lemma NoSockets()
    ensures SocketsIn([]) == {}
  {
  }

  lemma BucketsDisjoint(s: State, k1: string, k2: string, x: nat)
    requires Inv(s) && k1 in s.pool && k2 in s.pool && x in SocketsIn(s.pool[k1]) && x in SocketsIn(s.pool[k2])
    ensures k1 == k2
  {
    var e1 :| e1 in s.pool[k1] && SocketOf(e1) == x;
    var e2 :| e2 in s.pool[k2] && SocketOf(e2) == x;
    SameSocketSameEntry(s, k1, e1, k2, e2);
  }

  ghost predicate NoRepeats(keys: seq<string>) {
    forall i, j :: 0 <= i < j < |keys| ==> keys[i] != keys[j]
  }

  lemma {:induction false} SizesAddUp(s: State, keys: seq<string>)
    requires Inv(s) && NoRepeats(keys)
    ensures |SocketsUnder(s.pool, keys)| == BucketSizes(s.pool, keys)
  {
    hide SocketsIn;
    hide Inv;
    if keys != [] {
      SizesAddUp(s, keys[1..]);
      var entries := BucketOf(s.pool, keys[0]);
      FirstSize(s, keys[0]);
      forall x | x in SocketsIn(entries)
        ensures x !in SocketsUnder(s.pool, keys[1..])
      {
        NoSockets();
        SocketsUnderAre(s.pool, keys[1..], x);
        forall k | k in keys[1..] && k in s.pool
          ensures x !in SocketsIn(s.pool[k])
        {
          if x in SocketsIn(s.pool[k]) {
            BucketsDisjoint(s, keys[0], k, x);
          }
        }
      }
    }
  }

  lemma FirstSize(s: State, key: string)
    requires Inv(s)
    ensures |SocketsIn(BucketOf(s.pool, key))| == |BucketOf(s.pool, key)|
  {
    assert Distinct(BucketOf(s.pool, key)) by {
      assert key in s.pool ==> GoodBucket(key, s.pool[key], s.origins, s.open, s.clock);
    }
    DistinctSize(BucketOf(s.pool, key));
  }

  /** The counter equals the sum of the bucket sizes, in whatever order the buckets are listed. */
  lemma {:induction false} TotalIsSum(s: State, keys: seq<string>)
    requires Inv(s) && NoRepeats(keys) && forall k :: k in keys <==> k in s.pool
    ensures s.total == BucketSizes(s.pool, keys)
  {
    hide BucketSizes;
    hide SocketsUnder;
    hide GoodBucket;
    hide GoodConnection;
    SizesAddUp(s, keys);
    forall x
      ensures x in SocketsUnder(s.pool, keys) <==> x in Pooled(s.pool)
    {
      SocketsUnderAre(s.pool, keys, x);
    }
    assert SocketsUnder(s.pool, keys) == Pooled(s.pool);
  }

  /** Under a fixed configuration neither limit is ever exceeded. */
  lemma LimitsOverRuns(config: Config, start: int, ops: seq<Op>)
    requires CanRun(Start(config, start), ops) && forall op :: op in ops ==> !op.DoSetConfig?
    ensures var s := RunOps(Start(config, start), ops);
            WithinLimits(s) && s.config == config
  {
    hide Inv;
    hide WithinLimits;
    StartIsGood(config, start);
    RunKeepsInv(Start(config, start), ops);
  }
}
