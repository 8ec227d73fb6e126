/** ConnectionPool and Connection as code: prune_idle, acquire, release and set_config over mutable buckets,
    each proved to take the step that the state machine of module Pools takes. */
module ConnectionPools {
  import opened Text
  import opened Urls
  import opened Pools
  import opened PoolReuse

  /** The operating system's sockets: numbered in the order of opening, with the origin of each. */
  class Kernel {
    ghost var open: set<nat>
    var origins: seq<Origin>

    constructor ()
      ensures open == {} && origins == []
    {
      open, origins := {}, [];
    }

    /** ::socket and ::connect */
    method Connect(origin: Origin) returns (socket: nat)
      modifies this
      ensures socket == |old(origins)| && origins == old(origins) + [origin] && open == old(open) + {socket}
    {
      socket := |origins|;
      open, origins := open + {socket}, origins + [origin];
    }

    /** ::close */
    method Close(socket: nat)
      modifies this`open
      ensures open == old(open) - {socket}
    {
      open := open - {socket};
    }
  }

  // ----- pruning one bucket after another -----

  function IdleIn(entries: seq<PoolEntry>, now: int, timeoutMs: int): set<nat> {
    set e | e in entries && Idle(e, now, timeoutMs) :: SocketOf(e)
  }

  /** The sockets that pruning closes in the buckets under `keys`. */
  function IdleUnder(pool: Buckets, keys: set<string>, now: int, timeoutMs: int): set<nat> {
    set k, e | k in keys && k in pool && e in pool[k] && Idle(e, now, timeoutMs) :: SocketOf(e)
  }

  /** The pool when the buckets not in `left` have been pruned. */
  function PrunedExcept(pool: Buckets, left: set<string>, now: int, timeoutMs: int): Buckets {
    map k | k in pool && (k in left || Keep(pool[k], now, timeoutMs) != []) ::
      if k in left then pool[k] else Keep(pool[k], now, timeoutMs)
  }

  lemma {:induction false} IdleInSize(entries: seq<PoolEntry>, now: int, timeoutMs: int)
    requires Distinct(entries)
    ensures |IdleIn(entries, now, timeoutMs)| == |entries| - |Keep(entries, now, timeoutMs)|
  {
    if entries != [] {
      var front, e := entries[..|entries| - 1], entries[|entries| - 1];
      IdleInSize(front, now, timeoutMs);
      assert forall f :: f in entries <==> f in front || f == e;
      if Idle(e, now, timeoutMs) {
        assert IdleIn(entries, now, timeoutMs) == IdleIn(front, now, timeoutMs) + {SocketOf(e)};
        assert SocketOf(e) !in IdleIn(front, now, timeoutMs);
      } else {
        assert IdleIn(entries, now, timeoutMs) == IdleIn(front, now, timeoutMs);
      }
    }
  }

  lemma IdleGrows(pool: Buckets, done: set<string>, k: string, now: int, timeoutMs: int)
    requires k in pool
    ensures IdleUnder(pool, done + {k}, now, timeoutMs)
            == IdleUnder(pool, done, now, timeoutMs) + IdleIn(pool[k], now, timeoutMs)
  {
    hide SocketOf;
    hide Idle;
  }

  /** The idle sockets already closed and the sockets of the next bucket are different pooled sockets. */
  lemma NextBucketIsApart(s: State, done: set<string>, k: string, now: int, timeoutMs: int)
    requires Inv(s) && k in s.pool && k !in done
    ensures IdleUnder(s.pool, done, now, timeoutMs) !! SocketsIn(s.pool[k])
    ensures IdleUnder(s.pool, done, now, timeoutMs) + SocketsIn(s.pool[k]) <= Pooled(s.pool)
    ensures IdleIn(s.pool[k], now, timeoutMs) <= SocketsIn(s.pool[k])
  {
    hide SocketOf;
    hide Inv;
    hide Idle;
    BucketIsPooled(s.pool, k);
    forall k', e', e | k' in done && k' in s.pool && e' in s.pool[k'] && e in s.pool[k]
      ensures SocketOf(e') != SocketOf(e)
    {
      if SocketOf(e') == SocketOf(e) {
        SameSocketSameEntry(s, k', e', k, e);
      }
    }
  }

  lemma DisjointSizes(a: set<nat>, b: set<nat>, all: set<nat>)
    requires a !! b && a + b <= all
    ensures |a + b| == |a| + |b| <= |all|
  {
    SubsetSize(a + b, all);
  }

  class ConnectionPool {
    const kernel: Kernel
    var pool: Buckets
    var total: nat
    var config: Config
    var lastCheck: int
    // The connections callers hold, and the latest clock reading.
    ghost var leased: map<nat, Connection>
    ghost var clock: int

    ghost function View(): State
      reads this, kernel
    {
      State(pool, total, config, lastCheck, kernel.open, kernel.origins, leased, clock)
    }

    ghost predicate Valid()
      reads this, kernel
    {
      Inv(View())
    }

    constructor (kernel: Kernel, config: Config, now: int)
      requires kernel.open == {} && kernel.origins == []
      ensures View() == Start(config, now) && this.kernel == kernel && Valid()
    {
      this.kernel, pool, total, this.config, lastCheck, leased, clock := kernel, map[], 0, config, now, map[], now;
      StartIsGood(config, now);
    }

    method SetConfig(config: Config)
      requires Valid()
      modifies this`config
      ensures Valid() && View() == Step(old(View()), DoSetConfig(config))
    {
      this.config := config;
      ConfigKeepsInv(old(View()), config);
    }

    /** The erase-remove pass over one bucket: every idle entry is closed and counted off. */
    method PruneBucket(entries: seq<PoolEntry>, now: int) returns (kept: seq<PoolEntry>)
      requires total >= |entries| && forall e :: e in entries ==> e.connection.IsOpen()
      modifies this`total, kernel`open
      ensures kept == Keep(entries, now, config.idleTimeoutMs)
      ensures total == old(total) - (|entries| - |kept|)
      ensures kernel.open == old(kernel.open) - IdleIn(entries, now, config.idleTimeoutMs)
    {
      hide Keep;
      hide IdleIn;
      hide Idle;
      hide SocketOf;
      kept := [];
      NothingKept(now, config.idleTimeoutMs);
      for i := 0 to |entries|
        invariant kept == Keep(entries[..i], now, config.idleTimeoutMs) && |kept| <= i
        invariant total == old(total) - (i - |kept|)
        invariant kernel.open == old(kernel.open) - IdleIn(entries[..i], now, config.idleTimeoutMs)
      {
        var e := entries[i];
        KeepOneMore(entries[..i], e, now, config.idleTimeoutMs);
        assert entries[..i + 1] == entries[..i] + [e];
        if Idle(e, now, config.idleTimeoutMs) {
          kernel.Close(SocketOf(e));
          assert total > 0;
          if total > 0 {
            total := total - 1;
          }
        } else {
          kept := kept + [e];
        }
      }
      assert entries[..|entries|] == entries;
    }

    /** The loop of prune_idle over all buckets. */
    method PruneBuckets(now: int)
      requires Valid()
      modifies this`pool, this`total, kernel`open
      ensures pool == KeepAll(old(pool), now, config.idleTimeoutMs)
      ensures total == Minus(old(total), |IdleSockets(old(pool), now, config.idleTimeoutMs)|)
      ensures kernel.open == old(kernel.open) - IdleSockets(old(pool), now, config.idleTimeoutMs)
    {
      hide Keep;
      hide IdleIn;
      hide IdleUnder;
      hide IdleSockets;
      hide Inv;
      hide PrunedExcept;
      ghost var s, ms := View(), config.idleTimeoutMs;
      var left := pool.Keys;
      ghost var done := {};
      IdleUnderNothing(s.pool, now, ms);
      PrunedNoneAndAll(s.pool, now, ms);
      while left != {}
        invariant left !! done && left + done == s.pool.Keys
        invariant pool == PrunedExcept(s.pool, left, now, ms)
        invariant total + |IdleUnder(s.pool, done, now, ms)| == s.total
        invariant kernel.open == s.open - IdleUnder(s.pool, done, now, ms)
        decreases left
      {
        var k :| k in left;
        NextBucket(s, done, k, now, ms);
        PrunedNext(s.pool, left, k, now, ms);
        var kept := PruneBucket(pool[k], now);
        if kept == [] {
          pool := pool - {k};
        } else {
          pool := pool[k := kept];
        }
        left := left - {k};
        done := done + {k};
      }
      assert done == s.pool.Keys;
      IdleUnderAll(s.pool, now, ms);
    }

    /** prune_idle */
    method PruneIdle(now: int, force: bool)
      requires Valid() && clock <= now
      modifies this`pool, this`total, this`lastCheck, this`clock, kernel`open
      ensures Valid() && View() == Prune(old(View()), now, force)
    {
      hide Inv;
      hide KeepAll;
      hide IdleSockets;
      PruneKeepsInv(View(), now, force);
      if !(config.healthCheckMs <= 0 && !force)
         && (force || config.healthCheckMs <= 0 || Millis(now - lastCheck) >= config.healthCheckMs) {
        if config.idleTimeoutMs > 0 {
          PruneBuckets(now);
        }
        lastCheck := now;
      }
      clock := now;
    }

    /** Connection::open on a fresh handle: None when no address can be connected to. */
    method OpenConnection(url: Url, reachable: bool) returns (c: Option<Connection>)
      modifies this`leased, kernel
      ensures View() == Open(old(View()), url, reachable).0 && c == Open(old(View()), url, reachable).1
    {
      if !reachable { return None; }
      var handle := Connection(None, url.scheme, url.host, DefaultPort(url));
      var socket := kernel.Connect(OriginOf(handle));
      handle := handle.(socket := Some(socket));
      leased := leased[socket := handle];
      c := Some(handle);
    }

    /** acquire: None when an exception leaves it. */
    method AcquireConnection(url: Url, now: int, reachable: bool) returns (c: Option<Connection>)
      requires Valid() && clock <= now && IsHttpScheme(url.scheme)
      modifies this`pool, this`total, this`lastCheck, this`clock, this`leased, kernel
      ensures Valid()
      ensures View() == Acquire(old(View()), url, now, reachable).0 && c == Acquire(old(View()), url, now, reachable).1
    {
      hide Inv;
      hide Prune;
      hide MakeKey;
      AcquireKeepsInv(View(), url, now, reachable);
      PruneIdle(now, false);
      ghost var p := View();
      var key := MakeKey(url.scheme, url.host, if url.hasPort then url.port else DefaultPort(url));
      if key in pool {
        var entries := pool[key];
        while entries != []
          invariant |entries| <= |p.pool[key]| && PopOpen(entries) == PopOpen(p.pool[key])
          invariant View() == p.(total := Minus(p.total, |p.pool[key]| - |entries|))
          decreases |entries|
        {
          var entry := entries[|entries| - 1];
          entries := entries[..|entries| - 1];
          if total > 0 {
            total := total - 1;
          }
          if entry.connection.IsOpen() {
            pool := if entries == [] then pool - {key} else pool[key := entries];
            leased := leased[entry.connection.socket.value := entry.connection];
            return Some(entry.connection);
          }
        }
        pool := pool - {key};
      }
      c := OpenConnection(url, reachable);
    }

    /** Connection::close on a leased handle. */
    method CloseConnection(c: Connection)
      requires Valid() && c.IsOpen() && c.socket.value in leased
      modifies this`leased, kernel`open
      ensures Valid() && View() == Close(old(View()), c.socket.value)
    {
      hide Inv;
      CloseKeepsInv(View(), c.socket.value);
      kernel.Close(c.socket.value);
      leased := leased - {c.socket.value};
    }

    /** release; a closed handle is ignored. The clock is read again when the entry is made. */
    method ReleaseConnection(c: Connection, keepAlive: bool, now: int, later: int)
      requires Valid() && clock <= now <= later
      requires c.IsOpen() ==> c.socket.value in leased && leased[c.socket.value] == c
      modifies this`pool, this`total, this`lastCheck, this`clock, this`leased, kernel`open
      ensures Valid()
      ensures View() == if c.IsOpen() then Release(old(View()), c.socket.value, keepAlive, now, later) else old(View())
    {
      hide Inv;
      hide Prune;
      hide MakeKey;
      if !c.IsOpen() { return; }
      ReleaseKeepsInv(View(), c.socket.value, keepAlive, now, later);
      if !keepAlive {
        CloseConnection(c);
        return;
      }
      PruneKeepsInv(View(), now, false);
      PruneIdle(now, false);
      if config.maxConnections > 0 && total >= config.maxConnections {
        CloseConnection(c);
        return;
      }
      var key := c.Key();
      var entries := if key in pool then pool[key] else [];
      if config.maxPerHost > 0 && |entries| >= config.maxPerHost {
        CloseConnection(c);
        return;
      }
      pool := pool[key := entries + [PoolEntry(c, later)]];
      total := total + 1;
      leased := leased - {c.socket.value};
      clock := later;
    }
  }

  lemma NothingKept(now: int, timeoutMs: int)
    ensures Keep([], now, timeoutMs) == [] && IdleIn([], now, timeoutMs) == {}
  {
  }

  lemma KeepOneMore(entries: seq<PoolEntry>, e: PoolEntry, now: int, timeoutMs: int)
    ensures Keep(entries + [e], now, timeoutMs)
            == Keep(entries, now, timeoutMs) + if Idle(e, now, timeoutMs) then [] else [e]
    ensures IdleIn(entries + [e], now, timeoutMs) ==
            IdleIn(entries, now, timeoutMs) + if Idle(e, now, timeoutMs) then {SocketOf(e)} else {}
  {
    hide Idle;
    hide SocketOf;
    assert (entries + [e])[..|entries|] == entries;
    assert forall f :: f in entries + [e] <==> f in entries || f == e;
  }

  lemma PrunedNoneAndAll(pool: Buckets, now: int, timeoutMs: int)
    ensures PrunedExcept(pool, pool.Keys, now, timeoutMs) == pool
    ensures PrunedExcept(pool, {}, now, timeoutMs) == KeepAll(pool, now, timeoutMs)
  {
  }

  lemma PrunedNext(pool: Buckets, left: set<string>, k: string, now: int, timeoutMs: int)
    requires k in left && k in pool
    ensures var current, kept := PrunedExcept(pool, left, now, timeoutMs), Keep(pool[k], now, timeoutMs);
            && k in current && current[k] == pool[k]
            && PrunedExcept(pool, left - {k}, now, timeoutMs) ==
               if kept == [] then current - {k} else current[k := kept]
  {
    hide Keep;
  }

  lemma IdleUnderNothing(pool: Buckets, now: int, timeoutMs: int)
    ensures IdleUnder(pool, {}, now, timeoutMs) == {}
  {
  }

  lemma IdleUnderAll(pool: Buckets, now: int, timeoutMs: int)
    ensures IdleUnder(pool, pool.Keys, now, timeoutMs) == IdleSockets(pool, now, timeoutMs)
  {
    hide SocketOf;
    hide Idle;
  }

  /** What the next turn of the pruning loop relies on and adds. */
  lemma NextBucket(s: State, done: set<string>, k: string, now: int, timeoutMs: int)
    requires Inv(s) && k in s.pool && k !in done
    ensures |IdleUnder(s.pool, done, now, timeoutMs)| + |s.pool[k]| <= s.total
    ensures forall e :: e in s.pool[k] ==> e.connection.IsOpen()
    ensures IdleUnder(s.pool, done + {k}, now, timeoutMs)
            == IdleUnder(s.pool, done, now, timeoutMs) + IdleIn(s.pool[k], now, timeoutMs)
    ensures |IdleUnder(s.pool, done + {k}, now, timeoutMs)| ==
            |IdleUnder(s.pool, done, now, timeoutMs)| + |s.pool[k]| - |Keep(s.pool[k], now, timeoutMs)|
  {
    hide IdleUnder;
    hide IdleIn;
    hide Keep;
    hide Pooled;
    hide SocketsIn;
    hide MakeKey;
    var before, added := IdleUnder(s.pool, done, now, timeoutMs), IdleIn(s.pool[k], now, timeoutMs);
    NextBucketIsApart(s, done, k, now, timeoutMs);
    assert GoodBucket(k, s.pool[k], s.origins, s.open, s.clock);
    DistinctSize(s.pool[k]);
    DisjointSizes(before, SocketsIn(s.pool[k]), Pooled(s.pool));
    IdleGrows(s.pool, done, k, now, timeoutMs);
    IdleInSize(s.pool[k], now, timeoutMs);
    DisjointSizes(before, added, before + added);
    assert forall e :: e in s.pool[k] ==> GoodEntry(k, e, s.origins, s.open, s.clock);
  }
}
