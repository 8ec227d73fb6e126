/** Where one response ends and the next one begins on a connection: how many bytes of a message the receive loop
    reads, and what it leaves unread for the next exchange over the same socket. */
module Boundaries {
  import opened Text
  import opened Numbers
  import opened HeaderMap
  import opened Chunked
  import opened Http1
  import opened Receive
  import opened ChunkedResponse
  import opened Framing
  import opened Urls
  import opened Pools
  import opened PoolReuse
  import opened Exchanges

  // ----- how many bytes the stop test needs -----

  function Later(a: nat, b: nat): nat {
    if a < b then b else a
  }

  /** The least number of bytes of a complete response that the stop test accepts. */
  function Needed(raw: string, verb: string): nat
    requires HasCompleteResponse(raw, verb, false)
  {
    var headEnd := HeadEnd(raw).value;
    var start, h := headEnd + 4, HeadFields(raw[..headEnd], DropOneSpace);
    if IsHead(verb) || StatusHasNoBody(HeadStatus(raw[..headEnd])) then start
    else if MentionsChunked(h) then Find(raw, TERMINATOR, start).value + 7
    else if ContentLength(h) > 0 then Later(start, (start + ContentLength(h)) % SIZE_MODULUS)
    else start
  }

  lemma FindInCut(s: string, p: string, from: nat, k: nat)
    requires k <= |s| && Find(s, p, from).Some?
    ensures Find(s, p, from).value + |p| <= |s|
    ensures Find(s[..k], p, from) == if Find(s, p, from).value + |p| <= k then Find(s, p, from) else None
  {
    var t, now := Find(s, p, from).value, s[..k];
    assert s == now + s[k..];
    if t + |p| <= k {
      OccursAtAppend(now, s[k..], p, t);
      forall j | from <= j < t
        ensures !OccursAt(now, p, j)
      {
        OccursAtAppend(now, s[k..], p, j);
      }
      FindIs(now, p, from, t);
    } else if Find(now, p, from).Some? {
      FindStable(now, s[k..], p, from);
    }
  }

  /** The stop test accepts a prefix of a complete response exactly from that many bytes on. */
  lemma CompleteFrom(raw: string, verb: string, k: nat)
    requires HasCompleteResponse(raw, verb, false) && k <= |raw|
    ensures 4 <= Needed(raw, verb) <= |raw|
    ensures HasCompleteResponse(raw[..k], verb, false) <==> k >= Needed(raw, verb)
  {
    hide HeadFields;
    hide HeadStatus;
    hide ContentLength;
    hide HeaderMentions;
    hide Find;
    var headEnd := HeadEnd(raw).value;
    FindInCut(raw, HEAD_END, 0, k);
    FindInCut(raw, HEAD_END, 0, |raw|);
    if k >= headEnd + 4 {
      assert raw[..k][..headEnd] == raw[..headEnd];
    }
    if Find(raw, TERMINATOR, headEnd + 4).Some? {
      FindInCut(raw, TERMINATOR, headEnd + 4, k);
    }
  }

  /** The receive loop cannot stop before the end of the message. */
  predicate StopsAtEnd(message: string, verb: string) {
    HasCompleteResponse(message, verb, false) && Needed(message, verb) == |message|
  }

  // ----- what a read takes from a stream, and what it leaves -----

  /** Received, with the chunks that the loop leaves unread. */
  function ReadOn(got: string, chunks: seq<string>, verb: string): (string, bool, seq<string>)
    decreases |chunks|
  {
    if chunks == [] || chunks[0] == "" then (got, true, chunks)
    else
      var now := got + chunks[0];
      if HasCompleteResponse(now, verb, false) then (now, false, chunks[1..]) else ReadOn(now, chunks[1..], verb)
  }

  /** It reads what Received says, and no byte of the stream is lost or read twice. */
  lemma {:induction false} ReadOnReceives(got: string, chunks: seq<string>, verb: string)
    ensures var (raw, eof, left) := ReadOn(got, chunks, verb);
            && (raw, eof) == Received(got, chunks, verb)
            && raw + Concat(left) == got + Concat(chunks)
            && (!eof ==> HasCompleteResponse(raw, verb, false))
    decreases |chunks|
  {
    hide HasCompleteResponse;
    if chunks != [] && chunks[0] != "" {
      var now := got + chunks[0];
      assert got + Concat(chunks) == now + Concat(chunks[1..]);
      if !HasCompleteResponse(now, verb, false) {
        ReadOnReceives(now, chunks[1..], verb);
      }
    }
  }

  ghost predicate IsSplit(chunks: seq<string>, message: string) {
    NonEmptyChunks(chunks) && Concat(chunks) == message
  }

  /** A complete message that begins with `got`, in front of anything: the loop stops inside it, with at least the
      bytes that it needs. */
  lemma {:induction false} ReadStopsInside(got: string, chunks: seq<string>, more: seq<string>, verb: string)
    requires NonEmptyChunks(chunks) && chunks != []
    requires HasCompleteResponse(got + Concat(chunks), verb, false)
    ensures var (message, (raw, eof, left)) := (got + Concat(chunks), ReadOn(got, chunks + more, verb));
            && !eof && Needed(message, verb) <= |raw| <= |message| && raw == message[..|raw|]
            && (|raw| == |message| ==> left == more)
            && left == ReadOn(got, chunks, verb).2 + more && raw == ReadOn(got, chunks, verb).0
    decreases |chunks|
  {
    hide HasCompleteResponse;
    hide Needed;
    var now, message := got + chunks[0], got + Concat(chunks);
    assert chunks[0] in chunks && (chunks + more)[0] == chunks[0] && (chunks + more)[1..] == chunks[1..] + more;
    assert message == now + Concat(chunks[1..]);
    assert now == message[..|now|];
    assert "" !in chunks[1..] && now + "" == now;
    CompleteFrom(message, verb, |now|);
    if HasCompleteResponse(now, verb, false) {
      if chunks[1..] != [] {
        assert chunks[1] in chunks && chunks[1..][0] == chunks[1];
        assert |Concat(chunks[1..])| > 0;
      }
    } else {
      ReadStopsInside(now, chunks[1..], more, verb);
    }
  }

  lemma NotEmptyWhenComplete(chunks: seq<string>, verb: string)
    requires HasCompleteResponse(Concat(chunks), verb, false)
    ensures chunks != []
  {
    NothingIsIncomplete(verb);
  }

  /** A way to split a message so that it is not read, if there is one. */
  function BadSplit(message: string, verb: string): seq<string> {
    if message == "" then []
    else if HasCompleteResponse(message, verb, false) && 0 < Needed(message, verb) < |message| then
      [message[..Needed(message, verb)], message[Needed(message, verb)..]]
    else [message]
  }

  lemma BadSplitIsSplit(message: string, verb: string)
    ensures IsSplit(BadSplit(message, verb), message)
  {
    hide HasCompleteResponse;
    hide Needed;
    if message != "" {
      assert Concat([message]) == message by {
        assert [message][1..] == [] && message + "" == message;
      }
      if HasCompleteResponse(message, verb, false) && 0 < Needed(message, verb) < |message| {
        var n := Needed(message, verb);
        ConcatPair(message[..n], message[n..]);
      }
    }
  }

  lemma BadSplitIsMisread(message: string, more: seq<string>, verb: string)
    requires !StopsAtEnd(message, verb)
    ensures var r := ReadOn("", BadSplit(message, verb) + more, verb); r.0 != message || r.1
    ensures HasCompleteResponse(message, verb, false) ==>
              var n := Needed(message, verb);
              n < |message| &&
                ReadOn("", BadSplit(message, verb) + more, verb) == (message[..n], false, [message[n..]] + more)
  {
    hide HasCompleteResponse;
    hide Needed;
    var chunks := BadSplit(message, verb);
    ReadOnReceives("", chunks + more, verb);
    if HasCompleteResponse(message, verb, false) {
      var n := Needed(message, verb);
      CompleteFrom(message, verb, 0);
      CompleteFrom(message, verb, n);
      assert (chunks + more)[0] == message[..n] && (chunks + more)[1..] == [message[n..]] + more;
      assert "" + message[..n] == message[..n];
    }
  }

  /** A message is read to its end, and nothing behind it, however it is split, if and only if its proper prefixes
      are all too short for the stop test. */
  lemma FirstRead(message: string, verb: string)
    ensures (forall c1, c2 | IsSplit(c1, message) :: ReadOn("", c1 + c2, verb) == (message, false, c2))
            <==> StopsAtEnd(message, verb)
  {
    hide HasCompleteResponse;
    hide Needed;
    assert "" + message == message && message[..|message|] == message;
    if StopsAtEnd(message, verb) {
      forall c1, c2 | IsSplit(c1, message)
        ensures ReadOn("", c1 + c2, verb) == (message, false, c2)
      {
        NotEmptyWhenComplete(c1, verb);
        ReadStopsInside("", c1, c2, verb);
      }
    } else {
      BadSplitIsSplit(message, verb);
      BadSplitIsMisread(message, [], verb);
    }
  }

  /** Two reads in a row on one connection find two messages. */
  ghost predicate ReadsBoth(first: string, second: string, verb: string, nextVerb: string) {
    forall c1, c2 | IsSplit(c1, first) && IsSplit(c2, second) ::
      var (raw, eof, left) := ReadOn("", c1 + c2, verb);
      var (nextRaw, nextEof, nextLeft) := ReadOn("", left, nextVerb);
      raw == first && !eof && nextRaw == second && !nextEof && nextLeft == []
  }

  /** Whatever the split, two reads in a row find two messages sent one behind the other, if and only if neither
      read can stop before the end of its message. */
  lemma TwoReads(first: string, second: string, verb: string, nextVerb: string)
    ensures ReadsBoth(first, second, verb, nextVerb) <==> StopsAtEnd(first, verb) && StopsAtEnd(second, nextVerb)
  {
    hide StopsAtEnd;
    hide ReadOn;
    hide BadSplit;
    hide IsSplit;
    FirstRead(first, verb);
    FirstRead(second, nextVerb);
    BadSplitIsSplit(first, verb);
    BadSplitIsSplit(second, nextVerb);
    var c1, c2 := BadSplit(first, verb), BadSplit(second, nextVerb);
    if !StopsAtEnd(first, verb) {
      BadSplitIsMisread(first, c2, verb);
    } else if !StopsAtEnd(second, nextVerb) {
      assert ReadOn("", c1 + c2, verb) == (first, false, c2);
      BadSplitIsMisread(second, [], nextVerb);
      assert c2 + [] == c2;
    } else {
      forall c1, c2 | IsSplit(c1, first) && IsSplit(c2, second)
        ensures ReadOn("", c1 + c2, verb) == (first, false, c2)
        ensures ReadOn("", c2, nextVerb) == (second, false, [])
      {
        assert c2 + [] == c2;
      }
    }
  }

  // ----- which messages are read to their end -----

  /** For every head: the bodies behind which the stop test has accepted nothing shorter. */
  predicate IsWholeBody(head: string, body: string, verb: string) {
    var h := HeadFields(head, Trim);
    if IsHead(verb) || StatusHasNoBody(HeadStatus(head)) then body == ""
    else if MentionsChunked(h) then |body| >= 7 && Find(body, TERMINATOR, 0) == Some(|body| - 7)
    else if ContentLength(h) > 0 then
      |body| == if |head| + 4 + ContentLength(h) < SIZE_MODULUS then ContentLength(h) else 0
    else ConnectionClose(h) && body == ""
  }

  function PositionOf(p: string, s: string): nat {
    var t := Find(s, p, 0);
    if t.Some? then t.value else 0
  }

  lemma NeededIs(head: string, body: string, verb: string)
    requires IsMessageHead(head) && HasCompleteResponse(Message(head, body), verb, false)
    ensures var start, h := |head| + 4, HeadFields(head, Trim);
            Needed(Message(head, body), verb) ==
            if IsHead(verb) || StatusHasNoBody(HeadStatus(head)) then start
            else if MentionsChunked(h) then start + PositionOf(TERMINATOR, body) + 7
            else if ContentLength(h) > 0 then Later(start, (start + ContentLength(h)) % SIZE_MODULUS)
            else start
  {
    hide HeadFields;
    hide HeadStatus;
    hide ContentLength;
    hide HeaderMentions;
    hide IsMessageHead;
    hide Find;
    MessageParts(head, body);
    CleaningKeepsFraming(head);
  }

  /** Which messages the loop cannot leave early, for every head. */
  lemma StopsWhere(head: string, body: string, verb: string)
    requires IsMessageHead(head) && |head| + 4 + |body| < SIZE_MODULUS
    ensures StopsAtEnd(Message(head, body), verb) <==> IsWholeBody(head, body, verb)
  {
    hide HeadFields;
    hide HeadStatus;
    hide ContentLength;
    hide HeaderMentions;
    hide IsMessageHead;
    hide HasCompleteResponse;
    hide StopEnd;
    hide Needed;
    hide Find;
    StopIs(head, body, verb);
    var start, n := |head| + 4, ContentLength(HeadFields(head, Trim));
    assert |Message(head, body)| == start + |body|;
    if start + n < SIZE_MODULUS {
      SmallModulo(start + n, SIZE_MODULUS);
    } else {
      WrappedModulo(start, n);
    }
    if HasCompleteResponse(Message(head, body), verb, false) {
      NeededIs(head, body, verb);
    }
  }

  /** A chunked message is read to its end if and only if no terminator stands in its chunks and its end is plain. */
  lemma ChunkedStops(head: string, chunks: seq<Chunk>, last: Chunk, trailers: seq<Trailer>, verb: string)
    requires AnnouncesChunked(head) && !IsHead(verb)
    requires ValidChunks(chunks) && ValidLast(last) && ValidTrailers(trailers)
    requires |Message(head, Encode(chunks, last, trailers, ""))| < SIZE_MODULUS
    ensures StopsAtEnd(Message(head, Encode(chunks, last, trailers, "")), verb)
            <==> !Contains(EncodeChunks(chunks, ""), TERMINATOR) && EndsPlainly(chunks, last, trailers)
  {
    hide HeadFields;
    hide HeadStatus;
    hide HeaderMentions;
    hide IsMessageHead;
    hide StopsAtEnd;
    hide Find;
    hide Encode;
    var front, body := EncodeChunks(chunks, ""), Encode(chunks, last, trailers, "");
    assert |Message(head, body)| == |head| + 4 + |body|;
    StopsWhere(head, body, verb);
    FirstTerminator(chunks, last, trailers);
    BodyIs(chunks, last, trailers);
    LineLength(SizeLine(last), TrailerSection(trailers));
    if EndsPlainly(chunks, last, trailers) {
      PlainTail(last, trailers);
      PlainLength(chunks, last, trailers);
    }
    if Contains(front, TERMINATOR) {
      FindInCut(front, TERMINATOR, 0, 0);
    }
  }

  lemma PlainLength(chunks: seq<Chunk>, last: Chunk, trailers: seq<Trailer>)
    requires EndsPlainly(chunks, last, trailers)
    ensures |EncodeChunks(chunks, "")| >= 2
    ensures |Encode(chunks, last, trailers, "")| == |EncodeChunks(chunks, "")| + 5
  {
    hide EncodeChunks;
    BodyIs(chunks, last, trailers);
    PlainTerminator(chunks, last, trailers);
  }

  /** An interim response in front of the final one: the read may stop between them, and then the next exchange
      reads the final response as its own answer. */
  lemma InterimIsTheAnswer(head: string, final: string, reply: seq<string>, verb: string, nextVerb: string)
    requires IsMessageHead(head) && 100 <= HeadStatus(head) < 200
    requires HasCompleteResponse(final, nextVerb, false)
    ensures !StopsAtEnd(Message(head, final), verb)
    ensures IsSplit([Message(head, ""), final], Message(head, final))
    ensures ReadOn("", [Message(head, ""), final] + reply, verb) == (Message(head, ""), false, [final] + reply)
    ensures ReadOn("", [final] + reply, nextVerb) == (final, false, reply)
  {
    hide HeadFields;
    hide IsMessageHead;
    hide HeadStatus;
    hide Needed;
    var interim := Message(head, "");
    StopIs(head, "", verb);
    StopIs(head, final, verb);
    NeededIs(head, final, verb);
    hide HasCompleteResponse;
    hide StopEnd;
    NothingIsIncomplete(nextVerb);
    assert Message(head, final) == interim + final;
    ConcatPair(interim, final);
    assert ([interim, final] + reply)[1..] == [final] + reply;
    assert ([final] + reply)[1..] == reply;
    assert "" + interim == interim && "" + final == final;
  }

  /** Where the code agrees with section 6.3 of RFC 9112, a message that ends there is read to its end. */
  lemma StandardMessagesStop(head: string, body: string, verb: string)
    requires IsMessageHead(head) && |head| + 4 + |body| < SIZE_MODULUS
    requires var h := HeadFields(head, Trim);
             && HasGoodLength(h) && EndsAsStandard(h, HeadStatus(head), verb, |head| + 4)
             && EndsAt(StandardLength(h, HeadStatus(head), verb), body, |body|)
    ensures StopsAtEnd(Message(head, body), verb)
  {
    hide HeadFields;
    hide HeadStatus;
    hide HeaderMentions;
    hide IsMessageHead;
    hide StopsAtEnd;
    hide HasGoodLength;
    hide NatOf;
    hide Message;
    hide OpensTunnel;
    var h, status := HeadFields(head, Trim), HeadStatus(head);
    StopsWhere(head, body, verb);
    if !(IsHead(verb) || StatusHasNoBody(status)) {
      StandardIs(h, status, verb);
      LengthRead(h);
      hide ContentLength;
    }
  }

  // ----- exchanges over one network -----

  /** The pool, and for each socket the chunks that have been sent to it and not been read. */
  datatype Net = Net(pool: State, unread: map<nat, seq<string>>)

  function Unread(net: Net, socket: nat): seq<string> {
    if socket in net.unread then net.unread[socket] else []
  }

  /** An exchange that reads what its socket has left, and behind it the chunks sent in answer to the request. */
  function ExchangeOver(net: Net, url: Url, verb: string, request: Headers, w: World, inflate: Inflate)
    : (Net, Outcome)
  {
    var sending := Transmit(net.pool, url, w).1;
    if sending.NotSent? || sending.connection.socket.None? then
      var (t, outcome) := Exchange(net.pool, url, verb, request, w, inflate);
      (net.(pool := t), outcome)
    else
      var x := sending.connection.socket.value;
      var chunks := Unread(net, x) + w.chunks;
      var (t, outcome) := Exchange(net.pool, url, verb, request, w.(chunks := chunks), inflate);
      (Net(t, net.unread[x := ReadOn("", chunks, verb).2]), outcome)
  }

  /** No open socket has unread chunks, so what is read next was sent in answer to the next request. */
  ghost predicate Clean(net: Net) {
    forall x :: x in net.unread ==> x < |net.pool.origins| && (x in net.pool.open ==> net.unread[x] == [])
  }

  // ----- sockets opened on the way are new -----

  /** Every open socket was open before or has been opened since. */
  ghost predicate Grows(s: State, t: State) {
    |s.origins| <= |t.origins| && forall x :: x in t.open && x < |s.origins| ==> x in s.open
  }

  lemma AcquireGrows(s: State, url: Url, now: int, reachable: bool)
    ensures Grows(s, Acquire(s, url, now, reachable).0)
  {
    hide KeepAll;
    hide IdleSockets;
    hide MakeKey;
    hide PopOpen;
    hide WithBucket;
  }

  lemma ReleaseGrows(s: State, x: nat, keepAlive: bool, now: int, later: int)
    requires x in s.leased
    ensures Grows(s, Release(s, x, keepAlive, now, later))
  {
    hide KeepAll;
    hide IdleSockets;
    hide MakeKey;
  }

  lemma TransmitGrows(s: State, url: Url, w: World)
    ensures Grows(s, Transmit(s, url, w).0)
  {
    hide Acquire;
    AcquireGrows(s, url, w.start, w.reachable);
    var (s1, c1) := Acquire(s, url, w.start, w.reachable);
    if c1.Some? && c1.value.socket.Some? {
      AcquireGrows(Close(s1, c1.value.socket.value), url, w.again, w.reachableAgain);
    }
  }

  lemma ExchangeGrows(s: State, url: Url, verb: string, request: Headers, w: World, inflate: Inflate)
    ensures Grows(s, Exchange(s, url, verb, request, w, inflate).0)
    ensures Grows(Transmit(s, url, w).0, Exchange(s, url, verb, request, w, inflate).0)
  {
    hide Transmit;
    hide Read;
    hide Parse;
    hide Reusable;
    hide Release;
    TransmitGrows(s, url, w);
    var (t, sending) := Transmit(s, url, w);
    if sending.SentOver? && sending.connection.socket.Some? && sending.connection.socket.value in t.leased {
      var (raw, eof) := Read(w, verb);
      ReleaseGrows(t, sending.connection.socket.value, Reusable(request, Parse(raw, inflate), raw, verb, eof),
                   w.done, w.later);
    }
  }

  lemma LeasedIsOpened(s: State, x: nat)
    requires Inv(s) && x in s.leased
    ensures x in s.open && x < |s.origins|
  {
    hide GoodBuckets;
    hide Accounted;
  }

  /** The socket of an exchange from a clean network has nothing to read but the answer. */
  lemma SocketIsClean(net: Net, url: Url, w: World)
    requires Clean(net) && Inv(net.pool) && ClockRuns(w, net.pool.clock) && IsHttpScheme(url.scheme)
    requires Transmit(net.pool, url, w).1.SentOver?
    ensures var (t, c) := (Transmit(net.pool, url, w).0, Transmit(net.pool, url, w).1.connection);
            && c.IsOpen() && c.socket.value < |t.origins| && c.socket.value in t.leased
            && Unread(net, c.socket.value) == []
  {
    hide Transmit;
    hide Inv;
    TransmitLeases(net.pool, url, w);
    TransmitGrows(net.pool, url, w);
    var (t, sending) := Transmit(net.pool, url, w);
    LeasedIsOpened(t, sending.connection.socket.value);
  }

  // ----- one exchange -----

  /** On a clean network an exchange is the one that reads the answer alone. */
  lemma ReadsOwnAnswer(net: Net, url: Url, verb: string, request: Headers, w: World, inflate: Inflate)
    requires Clean(net) && Inv(net.pool) && ClockRuns(w, net.pool.clock) && IsHttpScheme(url.scheme)
    ensures var (after, outcome) := ExchangeOver(net, url, verb, request, w, inflate);
            && (after.pool, outcome) == Exchange(net.pool, url, verb, request, w, inflate)
            && after.unread ==
               match Transmit(net.pool, url, w).1
               case NotSent(_) => net.unread
               case SentOver(c) =>
                 if c.IsOpen() then net.unread[c.socket.value := ReadOn("", w.chunks, verb).2] else net.unread
  {
    hide Transmit;
    hide Inv;
    hide Exchange;
    hide ReadOn;
    if Transmit(net.pool, url, w).1.SentOver? {
      SocketIsClean(net, url, w);
      assert [] + w.chunks == w.chunks;
      assert w.(chunks := w.chunks) == w;
    }
  }

  /** What the pool makes of the connection of an exchange. */
  predicate KeepsIt(s: State, url: Url, request: Headers, raw: string, verb: string, w: World, inflate: Inflate) {
    var (t, sending) := Transmit(s, url, w);
    && sending.SentOver?
    && MayStayOpen(request, Parse(raw, inflate), raw, verb)
    && HasRoom(Prune(t, w.done, false), sending.connection.Key())
  }

  /** The network is clean again unless the connection is kept with something unread. */
  lemma CleanAgain(net: Net, url: Url, verb: string, request: Headers, w: World, inflate: Inflate)
    requires Clean(net) && Inv(net.pool) && ClockRuns(w, net.pool.clock) && IsHttpScheme(url.scheme)
    ensures var (raw, eof, left) := ReadOn("", w.chunks, verb);
            Clean(ExchangeOver(net, url, verb, request, w, inflate).0)
            <==> left == [] || eof || !KeepsIt(net.pool, url, request, raw, verb, w, inflate)
  {
    hide Transmit;
    hide Inv;
    hide Exchange;
    hide ReadOn;
    hide Pooled;
    hide Parse;
    hide Prune;
    hide HasRoom;
    hide MakeKey;
    hide HasCompleteResponse;
    hide ExchangeOver;
    hide WithinLimits;
    ReadsOwnAnswer(net, url, verb, request, w, inflate);
    ExchangeGrows(net.pool, url, verb, request, w, inflate);
    ReadOnReceives("", w.chunks, verb);
    if Transmit(net.pool, url, w).1.SentOver? {
      SocketIsClean(net, url, w);
      KeptExactly(net.pool, url, verb, request, w, inflate);
    }
  }

  // ----- however the answer is split -----

  lemma EndOfCut(raw: string, verb: string, k: nat)
    requires !IsHead(verb) && HasCompleteResponse(raw, verb, false) && Needed(raw, verb) <= k <= |raw|
    ensures var headEnd := HeadEnd(raw);
            && headEnd.Some? && 0 < headEnd.value && headEnd.value + 4 <= k && HeadEnd(raw[..k]) == headEnd
            && raw[..k][..headEnd.value] == raw[..headEnd.value]
            && ParserEnd(raw, headEnd.value).Some? && ParserEnd(raw[..k], headEnd.value).Some?
            && (MentionsChunked(HeadFields(raw[..headEnd.value], Trim)) ==>
                  && ParserEnd(raw[..k], headEnd.value) == ParserEnd(raw, headEnd.value)
                  && headEnd.value + 4 <= ParserEnd(raw, headEnd.value).value <= k)
  {
    hide HeadFields;
    hide HeadStatus;
    hide ContentLength;
    hide HeaderMentions;
    hide HasCompleteResponse;
    hide Needed;
    CompleteFrom(raw, verb, k);
    CompleteMeansParserEnd(raw, verb);
    CompleteMeansParserEnd(raw[..k], verb);
    HeadStable(raw[..k], raw[k..]);
    assert raw[..k] + raw[k..] == raw;
    if MentionsChunked(HeadFields(raw[..HeadEnd(raw).value], Trim)) {
      EndStable(raw[..k], raw[k..]);
    }
  }

  /** The status and the headers are the same from every accepted prefix. */
  lemma CutsParseAlike(raw: string, verb: string, k: nat, inflate: Inflate)
    requires !IsHead(verb) && HasCompleteResponse(raw, verb, false) && Needed(raw, verb) <= k <= |raw|
    ensures Parse(raw[..k], inflate).status == Parse(raw, inflate).status
    ensures Parse(raw[..k], inflate).headers == Parse(raw, inflate).headers
  {
    hide HeadFields;
    hide HeadStatus;
    hide HeaderMentions;
    hide ParserEnd;
    hide HasCompleteResponse;
    hide Needed;
    hide Decode;
    hide View;
    hide BodyText;
    EndOfCut(raw, verb, k);
    var headEnd := HeadEnd(raw).value;
    if MentionsChunked(HeadFields(raw[..headEnd], Trim)) {
      assert raw[..k] + raw[k..] == raw;
      ViewStable(raw[..k], raw[k..], headEnd + 4, ParserEnd(raw, headEnd).value);
    }
  }

  lemma CutsKeepAlike(s: State, url: Url, request: Headers, raw: string, k: nat, verb: string, w: World,
                      inflate: Inflate)
    requires HasCompleteResponse(raw, verb, false) && Needed(raw, verb) <= k <= |raw|
    requires !IsHead(verb) || k == |raw|
    ensures Reusable(request, Parse(raw[..k], inflate), raw[..k], verb, false)
            <==> Reusable(request, Parse(raw, inflate), raw, verb, false)
    ensures KeepsIt(s, url, request, raw[..k], verb, w, inflate) <==> KeepsIt(s, url, request, raw, verb, w, inflate)
  {
    hide HeaderMentions;
    hide HasCompleteResponse;
    hide Needed;
    hide Parse;
    hide Transmit;
    hide HasRoom;
    hide Prune;
    CompleteFrom(raw, verb, k);
    if k == |raw| {
      assert raw[..k] == raw;
    } else {
      CutsParseAlike(raw, verb, k, inflate);
    }
  }

  /** The pool after a complete answer does not depend on how the answer was split. */
  lemma SplitsKeepAlike(s: State, url: Url, verb: string, request: Headers, w: World, chunks: seq<string>,
                        inflate: Inflate)
    requires HasCompleteResponse(Concat(chunks), verb, false) && NonEmptyChunks(chunks)
    requires !IsHead(verb) || StopsAtEnd(Concat(chunks), verb)
    ensures Exchange(s, url, verb, request, w.(chunks := chunks), inflate).0
            == Exchange(s, url, verb, request, w.(chunks := [Concat(chunks)]), inflate).0
  {
    hide HasCompleteResponse;
    hide Needed;
    hide Parse;
    hide Transmit;
    hide Release;
    hide Reusable;
    var message := Concat(chunks);
    NotEmptyWhenComplete(chunks, verb);
    assert "" + message == message && chunks + [] == chunks;
    ReadStopsInside("", chunks, [], verb);
    ReadOnReceives("", chunks, verb);
    NothingIsIncomplete(verb);
    var raw := ReadOn("", chunks, verb).0;
    CutsKeepAlike(s, url, request, message, |raw|, verb, w, inflate);
    TransmitIgnoresChunks(s, url, w, chunks);
    TransmitIgnoresChunks(s, url, w, [message]);
  }

  lemma TransmitIgnoresChunks(s: State, url: Url, w: World, chunks: seq<string>)
    ensures Transmit(s, url, w.(chunks := chunks)) == Transmit(s, url, w)
  {
    hide Acquire;
  }

  /** However the answer is split, the network is clean afterwards. */
  ghost predicate StaysClean(net: Net, url: Url, verb: string, request: Headers, w: World, answer: string,
                             inflate: Inflate) {
    forall chunks | IsSplit(chunks, answer) ::
      Clean(ExchangeOver(net, url, verb, request, w.(chunks := chunks), inflate).0)
  }

  /** No split of the answer leaves a kept connection in the middle of it, if and only if the answer is incomplete,
      or is read to its end, or its connection is not kept. */
  lemma StaysCleanExactly(net: Net, url: Url, verb: string, request: Headers, w: World, answer: string,
                          inflate: Inflate)
    requires Clean(net) && Inv(net.pool) && ClockRuns(w, net.pool.clock) && IsHttpScheme(url.scheme) && !IsHead(verb)
    ensures StaysClean(net, url, verb, request, w, answer, inflate)
            <==> || !HasCompleteResponse(answer, verb, false)
                 || StopsAtEnd(answer, verb)
                 || !KeepsIt(net.pool, url, request, answer, verb, w, inflate)
  {
    hide HasCompleteResponse;
    hide Needed;
    hide KeepsIt;
    hide Inv;
    hide Clean;
    hide ExchangeOver;
    hide ReadOn;
    hide BadSplit;
    if !HasCompleteResponse(answer, verb, false) || StopsAtEnd(answer, verb)
       || !KeepsIt(net.pool, url, request, answer, verb, w, inflate) {
      forall chunks | IsSplit(chunks, answer)
        ensures Clean(ExchangeOver(net, url, verb, request, w.(chunks := chunks), inflate).0)
      {
        SplitStaysClean(net, url, verb, request, w, chunks, inflate);
      }
    } else {
      var chunks := BadSplit(answer, verb);
      BadSplitIsSplit(answer, verb);
      SplitSoils(net, url, verb, request, w, answer, inflate);
    }
  }

  lemma KeepsIgnoresChunks(s: State, url: Url, request: Headers, raw: string, verb: string, w: World,
                           chunks: seq<string>, inflate: Inflate)
    ensures KeepsIt(s, url, request, raw, verb, w.(chunks := chunks), inflate)
            <==> KeepsIt(s, url, request, raw, verb, w, inflate)
  {
    hide Transmit;
    hide Reusable;
    hide HasRoom;
    hide Prune;
    TransmitIgnoresChunks(s, url, w, chunks);
  }

  lemma SplitStaysClean(net: Net, url: Url, verb: string, request: Headers, w: World, chunks: seq<string>,
                        inflate: Inflate)
    requires Clean(net) && Inv(net.pool) && ClockRuns(w, net.pool.clock) && IsHttpScheme(url.scheme)
    requires NonEmptyChunks(chunks)
    requires var answer := Concat(chunks);
             || StopsAtEnd(answer, verb)
             || (!IsHead(verb) && !HasCompleteResponse(answer, verb, false))
             || (!IsHead(verb) && !KeepsIt(net.pool, url, request, answer, verb, w, inflate))
    ensures Clean(ExchangeOver(net, url, verb, request, w.(chunks := chunks), inflate).0)
  {
    hide HasCompleteResponse;
    hide Needed;
    hide KeepsIt;
    hide Inv;
    hide Clean;
    hide ExchangeOver;
    var answer := Concat(chunks);
    CleanAgain(net, url, verb, request, w.(chunks := chunks), inflate);
    assert "" + answer == answer && chunks + [] == chunks && answer[..|answer|] == answer;
    if HasCompleteResponse(answer, verb, false) {
      NotEmptyWhenComplete(chunks, verb);
      ReadStopsInside("", chunks, [], verb);
      hide ReadOn;
      var raw := ReadOn("", chunks, verb).0;
      CutsKeepAlike(net.pool, url, request, answer, |raw|, verb, w, inflate);
      KeepsIgnoresChunks(net.pool, url, request, raw, verb, w, chunks, inflate);
    } else {
      IncompleteReadsWhole("", chunks, verb);
      ReadOnReceives("", chunks, verb);
    }
  }

  lemma SplitSoils(net: Net, url: Url, verb: string, request: Headers, w: World, answer: string, inflate: Inflate)
    requires Clean(net) && Inv(net.pool) && ClockRuns(w, net.pool.clock) && IsHttpScheme(url.scheme) && !IsHead(verb)
    requires HasCompleteResponse(answer, verb, false) && !StopsAtEnd(answer, verb)
    requires KeepsIt(net.pool, url, request, answer, verb, w, inflate)
    ensures !Clean(ExchangeOver(net, url, verb, request, w.(chunks := BadSplit(answer, verb)), inflate).0)
  {
    hide HasCompleteResponse;
    hide Needed;
    hide KeepsIt;
    hide Inv;
    hide Clean;
    hide ExchangeOver;
    hide ReadOn;
    hide BadSplit;
    var chunks, n := BadSplit(answer, verb), Needed(answer, verb);
    BadSplitIsMisread(answer, [], verb);
    assert chunks + [] == chunks;
    CleanAgain(net, url, verb, request, w.(chunks := chunks), inflate);
    CutsKeepAlike(net.pool, url, request, answer, n, verb, w, inflate);
    KeepsIgnoresChunks(net.pool, url, request, answer[..n], verb, w, chunks, inflate);
  }

  // ----- two exchanges over one kept connection -----

  /** What the caller and the world of one exchange bring along, the chunks of the answer aside. */
  datatype Call = Call(url: Url, verb: string, request: Headers, w: World)

  function Do(net: Net, call: Call, chunks: seq<string>, inflate: Inflate): (Net, Outcome) {
    ExchangeOver(net, call.url, call.verb, call.request, call.w.(chunks := chunks), inflate)
  }

  predicate ReadsRaw(outcome: Outcome, raw: string) {
    outcome.Responded? && outcome.response.raw == raw
  }

  ghost predicate CanCall(s: State, call: Call) {
    Inv(s) && ClockRuns(call.w, s.clock) && IsHttpScheme(call.url.scheme)
  }

  /** The socket of a call, if its request goes out. */
  function SocketFor(s: State, call: Call): Option<nat> {
    match Transmit(s, call.url, call.w).1
    case NotSent(_) => None
    case SentOver(c) => c.socket
  }

  /** Both responses are read from exactly the bytes sent in answer to their requests. */
  ghost predicate ReadsBothAnswers(net: Net, first: Call, answer: string, second: Call, reply: string,
                                   inflate: Inflate) {
    forall c1, c2 | IsSplit(c1, answer) && IsSplit(c2, reply) ::
      var (between, outcome) := Do(net, first, c1, inflate);
      ReadsRaw(outcome, answer) && ReadsRaw(Do(between, second, c2, inflate).1, reply)
  }

  /** What a call reads over its socket. */
  lemma DoReads(net: Net, call: Call, chunks: seq<string>, inflate: Inflate)
    ensures var (after, outcome) := Do(net, call, chunks, inflate);
            match SocketFor(net.pool, call)
            case Some(x) =>
              var (raw, _, left) := ReadOn("", Unread(net, x) + chunks, call.verb);
              ReadsRaw(outcome, raw) && outcome.response == Parse(raw, inflate) && Unread(after, x) == left
            case None => after.unread == net.unread
    ensures Transmit(net.pool, call.url, call.w.(chunks := chunks)) == Transmit(net.pool, call.url, call.w)
  {
    hide Transmit;
    hide Release;
    hide ReadOn;
    hide Received;
    hide Reusable;
    TransmitIgnoresChunks(net.pool, call.url, call.w, chunks);
    if SocketFor(net.pool, call).Some? {
      var x := SocketFor(net.pool, call).value;
      var stream := Unread(net, x) + chunks;
      ReadOnReceives("", stream, call.verb);
      TransmitIgnoresChunks(net.pool, call.url, call.w, stream);
      ParseKeepsRaw(ReadOn("", stream, call.verb).0, inflate);
    }
  }

  /** The pool between two calls is the same for all splits of an answer that is read to its end. */
  lemma PoolBetween(net: Net, call: Call, answer: string, chunks: seq<string>, inflate: Inflate)
    requires Clean(net) && CanCall(net.pool, call)
    requires StopsAtEnd(answer, call.verb) && IsSplit(chunks, answer)
    ensures Do(net, call, chunks, inflate).0.pool == Do(net, call, [answer], inflate).0.pool
  {
    hide HasCompleteResponse;
    hide Inv;
    hide Clean;
    hide Exchange;
    hide ExchangeOver;
    hide ReadOn;
    ReadsOwnAnswer(net, call.url, call.verb, call.request, call.w.(chunks := chunks), inflate);
    ReadsOwnAnswer(net, call.url, call.verb, call.request, call.w.(chunks := [answer]), inflate);
    SplitsKeepAlike(net.pool, call.url, call.verb, call.request, call.w, chunks, inflate);
  }

  /** Two successive exchanges over one kept connection read the first answer and the second, however these are
      split, if and only if the first read cannot stop before the end of the first answer. */
  lemma TwoExchangesExactly(net: Net, first: Call, answer: string, second: Call, reply: string, inflate: Inflate)
    requires Clean(net) && CanCall(net.pool, first)
    requires HasCompleteResponse(answer, first.verb, false) && StopsAtEnd(reply, second.verb)
    requires var between := Do(net, first, [answer], inflate).0.pool;
             SocketFor(net.pool, first).Some? && SocketFor(between, second) == SocketFor(net.pool, first)
    ensures ReadsBothAnswers(net, first, answer, second, reply, inflate) <==> StopsAtEnd(answer, first.verb)
  {
    hide HasCompleteResponse;
    hide StopsAtEnd;
    hide Inv;
    hide Clean;
    hide Do;
    hide ReadOn;
    hide IsSplit;
    hide BadSplit;
    hide SocketFor;
    hide Unread;
    hide IsHead;
    if StopsAtEnd(answer, first.verb) {
      forall c1, c2 | IsSplit(c1, answer) && IsSplit(c2, reply)
        ensures ReadsRaw(Do(net, first, c1, inflate).1, answer)
        ensures ReadsRaw(Do(Do(net, first, c1, inflate).0, second, c2, inflate).1, reply)
      {
        BothAreRead(net, first, answer, c1, second, reply, c2, inflate);
      }
    } else {
      var c1, c2 := BadSplit(answer, first.verb), BadSplit(reply, second.verb);
      BadSplitIsSplit(answer, first.verb);
      BadSplitIsSplit(reply, second.verb);
      FirstIsMisread(net, first, answer, inflate);
      assert !ReadsRaw(Do(net, first, c1, inflate).1, answer);
    }
  }

  lemma FirstSocketIsClean(net: Net, call: Call)
    requires Clean(net) && CanCall(net.pool, call) && SocketFor(net.pool, call).Some?
    ensures Unread(net, SocketFor(net.pool, call).value) == []
  {
    hide Transmit;
    hide Inv;
    hide Clean;
    SocketIsClean(net, call.url, call.w);
  }

  lemma FirstIsMisread(net: Net, first: Call, answer: string, inflate: Inflate)
    requires Clean(net) && CanCall(net.pool, first) && SocketFor(net.pool, first).Some?
    requires !StopsAtEnd(answer, first.verb) && HasCompleteResponse(answer, first.verb, false)
    ensures !ReadsRaw(Do(net, first, BadSplit(answer, first.verb), inflate).1, answer)
  {
    hide HasCompleteResponse;
    hide Needed;
    hide CanCall;
    hide Clean;
    hide Do;
    hide ReadOn;
    hide BadSplit;
    hide SocketFor;
    hide Unread;
    hide Transmit;
    var chunks := BadSplit(answer, first.verb);
    FirstSocketIsClean(net, first);
    DoReads(net, first, chunks, inflate);
    BadSplitIsMisread(answer, [], first.verb);
    assert [] + chunks == chunks && chunks + [] == chunks;
  }

  /** Otherwise there is a split behind which the next exchange over the socket starts with the rest of the first
      answer. */
  lemma NextReadsRest(net: Net, first: Call, answer: string, second: Call, reply: seq<string>, inflate: Inflate)
    requires Clean(net) && CanCall(net.pool, first)
    requires HasCompleteResponse(answer, first.verb, false) && !StopsAtEnd(answer, first.verb)
    requires var between := Do(net, first, BadSplit(answer, first.verb), inflate).0.pool;
             SocketFor(net.pool, first).Some? && SocketFor(between, second) == SocketFor(net.pool, first)
    ensures var n := Needed(answer, first.verb);
            var (between, outcome) := Do(net, first, BadSplit(answer, first.verb), inflate);
            && n < |answer| && IsSplit(BadSplit(answer, first.verb), answer)
            && ReadsRaw(outcome, answer[..n])
            && ReadsRaw(Do(between, second, reply, inflate).1, ReadOn("", [answer[n..]] + reply, second.verb).0)
  {
    hide HasCompleteResponse;
    hide Needed;
    hide CanCall;
    hide Clean;
    hide Do;
    hide ReadOn;
    hide BadSplit;
    hide IsSplit;
    hide SocketFor;
    hide Unread;
    hide Transmit;
    var chunks := BadSplit(answer, first.verb);
    BadSplitIsSplit(answer, first.verb);
    FirstSocketIsClean(net, first);
    DoReads(net, first, chunks, inflate);
    DoReads(Do(net, first, chunks, inflate).0, second, reply, inflate);
    BadSplitIsMisread(answer, [], first.verb);
    assert [] + chunks == chunks && chunks + [] == chunks;
    assert [answer[Needed(answer, first.verb)..]] + [] == [answer[Needed(answer, first.verb)..]];
  }

  lemma BothAreRead(net: Net, first: Call, answer: string, c1: seq<string>, second: Call, reply: string,
                    c2: seq<string>, inflate: Inflate)
    requires Clean(net) && CanCall(net.pool, first)
    requires StopsAtEnd(answer, first.verb) && StopsAtEnd(reply, second.verb)
    requires IsSplit(c1, answer) && IsSplit(c2, reply)
    requires var between := Do(net, first, [answer], inflate).0.pool;
             SocketFor(net.pool, first).Some? && SocketFor(between, second) == SocketFor(net.pool, first)
    ensures var (between, outcome) := Do(net, first, c1, inflate);
            ReadsRaw(outcome, answer) && ReadsRaw(Do(between, second, c2, inflate).1, reply)
  {
    hide HasCompleteResponse;
    hide Needed;
    hide CanCall;
    hide Clean;
    hide Do;
    hide ReadOn;
    hide IsSplit;
    hide SocketFor;
    hide Unread;
    hide Transmit;
    hide IsHead;
    var between := Do(net, first, c1, inflate).0;
    FirstSocketIsClean(net, first);
    PoolBetween(net, first, answer, c1, inflate);
    DoReads(net, first, c1, inflate);
    DoReads(between, second, c2, inflate);
    FirstRead(answer, first.verb);
    FirstRead(reply, second.verb);
    assert [] + c1 == c1 && c1 + [] == c1 && [] + c2 == c2 && c2 + [] == c2;
    assert ReadOn("", c1 + [], first.verb) == (answer, false, []);
    assert ReadOn("", c2 + [], second.verb) == (reply, false, []);
  }

  /** There are such pairs of calls: from an empty pool without limits, an answer behind which the connection may
      stay open, and a second call for the same URL. */
  lemma SecondCallReuses(config: Config, now: int, first: Call, answer: string, second: Call, inflate: Inflate)
    requires config.maxConnections == 0 && config.maxPerHost == 0 && config.healthCheckMs == 0
    requires ClockRuns(first.w, now) && first.w.reachable && first.w.sent && IsHttpScheme(first.url.scheme)
    requires second.url == first.url && second.w.sent && NonEmptyChunks([answer])
    requires HasCompleteResponse(answer, first.verb, false)
    requires MayStayOpen(first.request, Parse(answer, inflate), answer, first.verb)
    ensures var net := Net(Start(config, now), map[]);
            && Clean(net) && CanCall(net.pool, first) && SocketFor(net.pool, first) == Some(0)
            && SocketFor(Do(net, first, [answer], inflate).0.pool, second) == Some(0)
  {
    hide HasCompleteResponse;
    hide Reusable;
    hide MakeKey;
    hide Parse;
    hide Inv;
    var net := Net(Start(config, now), map[]);
    hide MayStayOpen;
    ReusableIs(first.request, Parse(answer, inflate), answer, first.verb, false);
    StartIsGood(config, now);
    assert [] + [answer] == [answer] && "" + answer == answer;
    assert Received("", [answer], first.verb) == (answer, false);
  }

  // ----- whole runs -----

  /** The answer to a call is read to its end, or the connection is closed behind it: it is incomplete, has no status,
      or one side asks to close. */
  ghost predicate KeepsBounds(call: Call, inflate: Inflate) {
    var answer := Concat(call.w.chunks);
    && NonEmptyChunks(call.w.chunks)
    && (|| StopsAtEnd(answer, call.verb)
        || (!IsHead(call.verb) && !MayStayOpen(call.request, Parse(answer, inflate), answer, call.verb)))
  }

  function RunOver(net: Net, calls: seq<Call>, inflate: Inflate): (Net, seq<Outcome>)
    decreases |calls|
  {
    if calls == [] then (net, [])
    else
      var (next, outcome) := Do(net, calls[0], calls[0].w.chunks, inflate);
      var (last, outcomes) := RunOver(next, calls[1..], inflate);
      (last, [outcome] + outcomes)
  }

  /** The same calls, each reading the answer to its own request alone. */
  function RunAlone(s: State, calls: seq<Call>, inflate: Inflate): (State, seq<Outcome>)
    decreases |calls|
  {
    if calls == [] then (s, [])
    else
      var call := calls[0];
      var (next, outcome) := Exchange(s, call.url, call.verb, call.request, call.w, inflate);
      var (last, outcomes) := RunAlone(next, calls[1..], inflate);
      (last, [outcome] + outcomes)
  }

  ghost predicate ClocksRun(clock: int, calls: seq<Call>)
    decreases |calls|
  {
    calls != [] ==>
      ClockRuns(calls[0].w, clock) && IsHttpScheme(calls[0].url.scheme) && ClocksRun(calls[0].w.later, calls[1..])
  }

  lemma ClocksRunFromEarlier(clock: int, later: int, calls: seq<Call>)
    requires ClocksRun(later, calls) && clock <= later
    ensures ClocksRun(clock, calls)
  {
  }

  lemma ExchangeClock(s: State, url: Url, verb: string, request: Headers, w: World, inflate: Inflate)
    requires Inv(s) && ClockRuns(w, s.clock) && IsHttpScheme(url.scheme)
    ensures Exchange(s, url, verb, request, w, inflate).0.clock <= w.later
  {
    hide Transmit;
    hide Read;
    hide Parse;
    hide Reusable;
    hide Inv;
    hide KeepAll;
    hide IdleSockets;
    hide MakeKey;
    hide WithinLimits;
    TransmitLeases(s, url, w);
  }

  /** Over every run in which no kept connection is left inside an answer, every exchange reads the answer to its
      own request, the pool does what it does alone, and the network ends clean. */
  lemma {:induction false} RunsKeepBounds(net: Net, calls: seq<Call>, inflate: Inflate)
    requires Clean(net) && Inv(net.pool) && ClocksRun(net.pool.clock, calls)
    requires forall call :: call in calls ==> KeepsBounds(call, inflate)
    ensures var (after, outcomes) := RunOver(net, calls, inflate);
            (after.pool, outcomes) == RunAlone(net.pool, calls, inflate) && Clean(after) && Inv(after.pool)
    decreases |calls|
  {
    hide Inv;
    hide Clean;
    hide Exchange;
    hide ExchangeOver;
    hide KeepsBounds;
    if calls != [] {
      var call := calls[0];
      assert call in calls;
      var next := Do(net, call, call.w.chunks, inflate).0;
      assert call.w.(chunks := call.w.chunks) == call.w;
      ReadsOwnAnswer(net, call.url, call.verb, call.request, call.w, inflate);
      BoundsStayClean(net, call, inflate);
      NoLeak(net.pool, call.url, call.verb, call.request, call.w, inflate);
      ExchangeClock(net.pool, call.url, call.verb, call.request, call.w, inflate);
      ClocksRunFromEarlier(next.pool.clock, call.w.later, calls[1..]);
      assert forall c :: c in calls[1..] ==> c in calls;
      RunsKeepBounds(next, calls[1..], inflate);
    }
  }

  lemma BoundsStayClean(net: Net, call: Call, inflate: Inflate)
    requires Clean(net) && CanCall(net.pool, call) && KeepsBounds(call, inflate)
    ensures Clean(Do(net, call, call.w.chunks, inflate).0)
  {
    hide HasCompleteResponse;
    hide Needed;
    hide Inv;
    hide Clean;
    hide ExchangeOver;
    hide Transmit;
    hide HasRoom;
    hide Prune;
    hide Parse;
    SplitStaysClean(net, call.url, call.verb, call.request, call.w, call.w.chunks, inflate);
  }
}
