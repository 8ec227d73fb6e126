/** Http1Adapter::send over plain connections: acquire, send (once more on a fresh connection when the first
    send falls short), receive, parse, release. */
module Exchanges {
  import opened Text
  import opened HeaderMap
  import opened Urls
  import opened Http1
  import opened Receive
  import opened Pools
  import opened PoolReuse
  import opened ConnectionPools

  /** What the outside world does during one call: whether connecting works, whether all bytes of the request
      can be sent, the chunks received, and the clock readings. */
  datatype World = World(reachable: bool, sent: bool, reachableAgain: bool, sentAgain: bool, chunks: seq<string>,
                         start: int, again: int, done: int, later: int)

  ghost predicate ClockRuns(w: World, clock: int) {
    clock <= w.start <= w.again <= w.done <= w.later
  }

  datatype Outcome = Responded(response: Response) | ConnectFailed | SendFailed

  predicate MentionsClose(h: Headers) {
    HeaderMentions(h, "Connection", "close")
  }

  /** The Connection header, under any spelling of its name, has "close" in any letter case in its value. */
  predicate SaysClose(h: Headers) {
    "connection" in h && Contains(ToLower(h["connection"].value), "close")
  }

  lemma MentionsIsSays(h: Headers)
    ensures MentionsClose(h) <==> SaysClose(h)
  {
    assert ToLower("Connection") == "connection";
  }

  /** should_keep_alive */
  predicate ShouldKeepAlive(request: Headers, response: Headers) {
    !MentionsClose(request) && !MentionsClose(response)
  }

  /** Whether the connection goes back to the pool after `raw` has been read. */
  predicate Reusable(request: Headers, response: Response, raw: string, verb: string, eof: bool) {
    HasCompleteResponse(raw, verb, eof) && !eof && response.status != 0 && ShouldKeepAlive(request, response.headers)
  }

  /** The response is complete and has a status, and neither side asks to close. */
  predicate MayStayOpen(request: Headers, response: Response, raw: string, verb: string) {
    && HasCompleteResponse(raw, verb, false) && response.status != 0
    && !SaysClose(request) && !SaysClose(response.headers)
  }

  lemma ReusableIs(request: Headers, response: Response, raw: string, verb: string, eof: bool)
    ensures Reusable(request, response, raw, verb, eof) <==> !eof && MayStayOpen(request, response, raw, verb)
  {
    hide HasCompleteResponse;
    hide MentionsClose;
    hide SaysClose;
    MentionsIsSays(request);
    MentionsIsSays(response.headers);
  }

  /** The bytes read, and whether the stream ended. */
  function Read(w: World, verb: string): (string, bool) {
    Received("", w.chunks, verb)
  }

  /** How transmission ends: the connection the request went out on, or the failure the caller sees. */
  datatype Transmission = SentOver(connection: Connection) | NotSent(failure: Outcome)

  function Transmit(s: State, url: Url, w: World): (State, Transmission) {
    var (s1, c1) := Acquire(s, url, w.start, w.reachable);
    if c1.None? then (s1, NotSent(ConnectFailed))
    else if w.sent then (s1, SentOver(c1.value))
    else if c1.value.socket.None? then (s1, NotSent(ConnectFailed))
    else
      var (s2, c2) := Acquire(Close(s1, c1.value.socket.value), url, w.again, w.reachableAgain);
      if c2.None? then (s2, NotSent(ConnectFailed))
      else if w.sentAgain then (s2, SentOver(c2.value))
      else if c2.value.socket.None? then (s2, NotSent(ConnectFailed))
      else (Close(s2, c2.value.socket.value), NotSent(SendFailed))
  }

  lemma AcquireLeases(s: State, url: Url, now: int, reachable: bool)
    requires Inv(s) && s.clock <= now && IsHttpScheme(url.scheme)
    ensures var (t, c) := Acquire(s, url, now, reachable);
            && Inv(t) && (WithinLimits(s) ==> WithinLimits(t)) && t.config == s.config && t.clock == now
            && (c.None? ==> t.leased == s.leased)
            && (c.Some? ==> && c.value.IsOpen() && c.value.socket.value !in s.leased
                            && t.leased == s.leased[c.value.socket.value := c.value])
  {
    hide Inv;
    hide Prune;
    hide MakeKey;
    hide PopOpen;
    hide WithinLimits;
    AcquireKeepsInv(s, url, now, reachable);
    PruneKeepsInv(s, now, false);
    if Acquire(s, url, now, reachable).1.Some? {
      AcquireMatchesOrigin(s, url, now, reachable);
    } else {
      NoneMeansNoBucket(s, url, now, reachable);
    }
  }

  lemma NoneMeansNoBucket(s: State, url: Url, now: int, reachable: bool)
    requires Inv(s) && s.clock <= now && Acquire(s, url, now, reachable).1.None?
    ensures Acquire(s, url, now, reachable).0 == Prune(s, now, false)
  {
    PruneKeepsInv(s, now, false);
    var p, key := Prune(s, now, false), MakeKey(url.scheme, url.host, DefaultPort(url));
    hide Prune;
    hide MakeKey;
    if key in p.pool {
      PopOpenTakesLast(p, key);
    }
  }

  /** The one lease that transmission may leave is that of the connection it returns. */
  lemma {:induction false} TransmitLeases(s: State, url: Url, w: World)
    requires Inv(s) && ClockRuns(w, s.clock) && IsHttpScheme(url.scheme)
    ensures var (t, sending) := Transmit(s, url, w);
            && Inv(t) && (WithinLimits(s) ==> WithinLimits(t)) && t.config == s.config && t.clock <= w.again
            && match sending
               case NotSent(failure) => !failure.Responded? && t.leased == s.leased
               case SentOver(c) =>
                 && c.IsOpen() && c.socket.value !in s.leased
                 && t.leased == s.leased[c.socket.value := c]
  {
    hide Inv;
    hide WithinLimits;
    hide Acquire;
    AcquireLeases(s, url, w.start, w.reachable);
    var (s1, c1) := Acquire(s, url, w.start, w.reachable);
    if c1.Some? && !w.sent {
      CloseKeepsInv(s1, c1.value.socket.value);
      var s1' := Close(s1, c1.value.socket.value);
      assert s1'.leased == s.leased;
      AcquireLeases(s1', url, w.again, w.reachableAgain);
      var (s2, c2) := Acquire(s1', url, w.again, w.reachableAgain);
      if c2.Some? && !w.sentAgain {
        CloseKeepsInv(s2, c2.value.socket.value);
        assert Close(s2, c2.value.socket.value).leased == s.leased;
      }
    }
  }

  /** The whole exchange. */
  function Exchange(s: State, url: Url, verb: string, request: Headers, w: World, inflate: Inflate): (State, Outcome) {
    var (t, sending) := Transmit(s, url, w);
    match sending
    case NotSent(failure) => (t, failure)
    case SentOver(c) =>
      var (raw, eof) := Read(w, verb);
      var response := Parse(raw, inflate);
      var keepAlive := Reusable(request, response, raw, verb, eof);
      (if c.IsOpen() && c.socket.value in t.leased then Release(t, c.socket.value, keepAlive, w.done, w.later) else t,
       Responded(response))
  }

  /** No exchange leaks a connection: whatever fails, the leases are those from before, the pool invariant and
      the limits hold, and every socket opened on the way is pooled or closed. */
  lemma {:induction false} NoLeak(s: State, url: Url, verb: string, request: Headers, w: World, inflate: Inflate)
    requires Inv(s) && ClockRuns(w, s.clock) && IsHttpScheme(url.scheme)
    ensures var (t, outcome) := Exchange(s, url, verb, request, w, inflate);
            && Inv(t) && (WithinLimits(s) ==> WithinLimits(t))
            && t.leased == s.leased
            && forall x :: x in t.open - s.open ==> x in Pooled(t.pool)
  {
    hide WithinLimits;
    hide Transmit;
    hide Read;
    hide Parse;
    hide Reusable;
    hide Inv;
    hide Pooled;
    hide Release;
    TransmitLeases(s, url, w);
    var (t, sending) := Transmit(s, url, w);
    if sending.SentOver? {
      var (raw, eof) := Read(w, verb);
      var keep := Reusable(request, Parse(raw, inflate), raw, verb, eof);
      var c := sending.connection;
      ReleaseKeepsInv(t, c.socket.value, keep, w.done, w.later);
      ReleaseEndsLease(t, c.socket.value, keep, w.done, w.later);
      assert s.leased[c.socket.value := c] - {c.socket.value} == s.leased;
    }
    OpenedIsPooled(s, Exchange(s, url, verb, request, w, inflate).0);
  }

  lemma OpenedIsPooled(s: State, t: State)
    requires Inv(s) && Inv(t) && t.leased == s.leased
    ensures forall x :: x in t.open - s.open ==> x in Pooled(t.pool)
  {
    hide GoodBuckets;
    hide GoodLeases;
    hide Pooled;
  }

  /** Whether the pool takes one more connection with this key. */
  predicate HasRoom(s: State, key: string) {
    && !(s.config.maxConnections > 0 && s.total >= s.config.maxConnections)
    && !(s.config.maxPerHost > 0 && |BucketOf(s.pool, key)| >= s.config.maxPerHost)
  }

  lemma LeasedStaysOpen(s: State, socket: nat, now: int)
    requires Inv(s) && socket in s.leased && s.clock <= now
    ensures var p := Prune(s, now, false); socket in p.open && p.leased == s.leased
  {
    hide Prune;
    hide Pooled;
    hide GoodBuckets;
    hide GoodLeases;
    PruneKeepsInv(s, now, false);
    PoolIsOpen(Prune(s, now, false));
  }

  /** A released connection stays open exactly when it is to be kept and the pruned pool has room for it. */
  lemma ReleaseEndsLease(s: State, socket: nat, keepAlive: bool, now: int, later: int)
    requires Inv(s) && socket in s.leased && s.clock <= now <= later
    ensures Release(s, socket, keepAlive, now, later).leased == s.leased - {socket}
    ensures socket in Release(s, socket, keepAlive, now, later).open <==>
            keepAlive && HasRoom(Prune(s, now, false), s.leased[socket].Key())
  {
    hide Prune;
    hide MakeKey;
    hide Inv;
    hide BucketOf;
    LeasedStaysOpen(s, socket, now);
  }

  lemma PooledIffOpen(t: State, x: nat)
    requires Inv(t) && x !in t.leased
    ensures x in t.open <==> x in Pooled(t.pool)
  {
    hide GoodBuckets;
    hide GoodLeases;
    hide Pooled;
  }

  /** The connection an exchange went out on is in the pool afterwards, and still open, exactly when the response
      was read completely before the end of the stream, has a status, neither side asked to close, and the pruned
      pool has room; otherwise it has been closed. */
  lemma {:induction false} KeptExactly(s: State, url: Url, verb: string, request: Headers, w: World, inflate: Inflate)
    requires Inv(s) && ClockRuns(w, s.clock) && IsHttpScheme(url.scheme) && Transmit(s, url, w).1.SentOver?
    ensures var ((t, sending), (raw, eof)) := (Transmit(s, url, w), Read(w, verb));
            var (after, outcome) := Exchange(s, url, verb, request, w, inflate);
            var c := sending.connection;
            && outcome == Responded(Parse(raw, inflate)) && c.IsOpen()
            && (c.socket.value in after.open <==> c.socket.value in Pooled(after.pool))
            && (c.socket.value in Pooled(after.pool) <==>
                  && !eof && MayStayOpen(request, outcome.response, raw, verb)
                  && HasRoom(Prune(t, w.done, false), c.Key()))
  {
    hide Transmit;
    hide Read;
    hide Parse;
    hide Reusable;
    hide MayStayOpen;
    hide HasRoom;
    hide Inv;
    hide Pooled;
    hide Release;
    hide Prune;
    hide MakeKey;
    hide WithinLimits;
    TransmitLeases(s, url, w);
    NoLeak(s, url, verb, request, w, inflate);
    var (t, sending) := Transmit(s, url, w);
    var (raw, eof) := Read(w, verb);
    var x := sending.connection.socket.value;
    ReusableIs(request, Parse(raw, inflate), raw, verb, eof);
    ReleaseEndsLease(t, x, Reusable(request, Parse(raw, inflate), raw, verb, eof), w.done, w.later);
    PooledIffOpen(Exchange(s, url, verb, request, w, inflate).0, x);
  }

  /** So a connection goes back to the pool only after a response that the parser, too, finds complete, with a
      status, and when neither side asked to close. */
  lemma {:induction false} KeptOnlyAfterCompleteResponse(s: State, url: Url, verb: string, request: Headers, w: World,
                                                         inflate: Inflate)
    requires Inv(s) && ClockRuns(w, s.clock) && IsHttpScheme(url.scheme)
    ensures var (sending, raw) := (Transmit(s, url, w).1, Read(w, verb).0);
            var (after, outcome) := Exchange(s, url, verb, request, w, inflate);
            sending.SentOver? && sending.connection.IsOpen() &&
            (sending.connection.socket.value in after.open || sending.connection.socket.value in Pooled(after.pool)) ==>
              && outcome.Responded?
              && (IsHead(verb) || (HeadEnd(raw).Some? && ParserEnd(raw, HeadEnd(raw).value).Some?))
              && outcome.response.status != 0
              && !SaysClose(request) && !SaysClose(outcome.response.headers)
  {
    hide Inv;
    hide Transmit;
    hide Exchange;
    hide HasCompleteResponse;
    hide Parse;
    hide ParserEnd;
    hide HeadEnd;
    hide SaysClose;
    hide Pooled;
    hide Prune;
    hide HasRoom;
    hide MakeKey;
    if Transmit(s, url, w).1.SentOver? {
      KeptExactly(s, url, verb, request, w, inflate);
      var (raw, eof) := Read(w, verb);
      if HasCompleteResponse(raw, verb, false) && !IsHead(verb) {
        CompleteMeansParserEnd(raw, verb);
      }
    }
  }

  class Http1Adapter {
    const pool: ConnectionPool

    constructor (pool: ConnectionPool)
      ensures this.pool == pool
    {
      this.pool := pool;
    }

    /** Http1Adapter::send for the http scheme; exceptions become outcomes. */
    method Send(url: Url, verb: string, request: Headers, w: World, inflate: Inflate) returns (outcome: Outcome)
      requires pool.Valid() && ClockRuns(w, pool.clock) && url.scheme == "http"
      modifies pool`pool, pool`total, pool`lastCheck, pool`clock, pool`leased, pool.kernel
      ensures pool.Valid()
      ensures pool.View() == Exchange(old(pool.View()), url, verb, request, w, inflate).0
      ensures outcome == Exchange(old(pool.View()), url, verb, request, w, inflate).1
      ensures pool.leased == old(pool.leased)
    {
      hide Inv;
      hide Acquire;
      hide Release;
      hide Received;
      hide Parse;
      hide HasCompleteResponse;
      ghost var s := pool.View();
      NoLeak(s, url, verb, request, w, inflate);
      AcquireLeases(s, url, w.start, w.reachable);
      var connection := pool.AcquireConnection(url, w.start, w.reachable);
      if connection.None? { return ConnectFailed; }
      if !w.sent {
        pool.CloseConnection(connection.value);
        AcquireLeases(pool.View(), url, w.again, w.reachableAgain);
        connection := pool.AcquireConnection(url, w.again, w.reachableAgain);
        if connection.None? { return ConnectFailed; }
        if !w.sentAgain {
          pool.CloseConnection(connection.value);
          return SendFailed;
        }
      }
      var raw, eof := ReceiveResponse(w.chunks, verb);
      var response := ParseResponse(raw, inflate);
      var complete := HasCompleteResponse(raw, verb, eof);
      var keepAlive := complete && !eof && response.status != 0 && ShouldKeepAlive(request, response.headers);
      pool.ReleaseConnection(connection.value, keepAlive, w.done, w.later);
      outcome := Responded(response);
    }
  }
}
