/** The request loop of Session: redirects, retries and the one-shot HTTP/2 fallback (session.cpp). */
module Redirects {
  import opened Text
  import opened Numbers
  import opened HeaderMap
  import opened Urls
  import opened RedirectTargets

  predicate IsRedirectStatus(status: int) {
    status == 301 || status == 302 || status == 303 || status == 307 || status == 308
  }

  predicate ShouldSwitchToGet(status: int, verb: string) {
    status == 303 || ((status == 301 || status == 302) && ToLower(verb) != "get" && ToLower(verb) != "head")
  }

  function StripBodyHeaders(h: Headers): Headers {
    Erase(Erase(Erase(h, "Content-Length"), "Content-Type"), "Transfer-Encoding")
  }

  // ----- the run of one Session::request call -----

  datatype Adapter = Http1 | Http2 | Mounted

  datatype ErrorCode = Unknown | Network | Protocol | Tls | Io | H2

  /** What one Adapter::send brings: a response, or an exception. */
  datatype Reply = Reply(status: int, headers: Headers, error: ErrorCode) | Thrown

  datatype Request = Request(verb: string, url: string, body: string, headers: Headers)

  datatype Sent = Sent(request: Request, via: Adapter)

  /** The network: the n-th send of the run receives script(n). */
  type Script = nat -> Reply

  /** send_with_retries: the same request again while the status is 0, and the last reply. */
  function RetriedSends(message: Sent, attempts: nat, n: nat, script: Script): (r: (seq<Sent>, Reply))
    requires attempts > 0
    ensures 1 <= |r.0| <= attempts && forall m :: m in r.0 ==> m == message
    ensures r.1 == script(n + |r.0| - 1)
    decreases attempts
  {
    var reply := script(n);
    if reply.Thrown? || reply.status != 0 || attempts == 1 then ([message], reply)
    else
      var (more, last) := RetriedSends(message, attempts - 1, n + 1, script);
      ([message] + more, last)
  }

  /** The locals of the loop. */
  datatype State = State(request: Request, via: Adapter, attemptedHttp2: bool)

  predicate FallsBack(s: State, reply: Reply) {
    reply.Reply? && reply.status == 0 && s.attemptedHttp2 &&
      (reply.error == H2 || reply.error == Io || reply.error == Tls)
  }

  function FallBack(s: State): State {
    s.(via := Http1, attemptedHttp2 := false)
  }

  /** The sends of one pass through the loop, the adapter state behind it, and the reply it ends with. */
  function Hop(s: State, attempts: nat, n: nat, script: Script): (r: (seq<Sent>, State, Reply))
    requires attempts > 0
    ensures r.1.request == s.request
  {
    var (sent, reply) := RetriedSends(Sent(s.request, s.via), attempts, n, script);
    if !FallsBack(s, reply) then (sent, s, reply)
    else
      var (again, second) := RetriedSends(Sent(s.request, Http1), attempts, n + |sent|, script);
      (sent + again, FallBack(s), second)
  }

  /** How a pass ends: with the response for the caller, with an exception, or with another request. */
  datatype Next = Return | Fail | Again(request: Request)

  /** What the loop does with a reply. With a cookie jar the current URL is parsed first, which may throw. */
  function NextRequest(request: Request, reply: Reply, cookieJar: bool): Next {
    if reply.Thrown? || (cookieJar && ParseUrl(request.url).Err?) then Fail
    else if !IsRedirectStatus(reply.status) || Get(reply.headers, "Location").None? then Return
    else
      var url := ResolveRedirect(request.url, Get(reply.headers, "Location").value);
      if url.None? then Fail
      else if ShouldSwitchToGet(reply.status, request.verb) then
        Again(Request("GET", url.value, "", StripBodyHeaders(request.headers)))
      else Again(request.(url := url.value))
  }

  /** One pass: its sends, and the reply that ended it. */
  datatype Pass = Pass(request: Request, sent: seq<Sent>, reply: Reply)

  /** The passes of a run that may still follow `redirects` redirects, and the reply returned to the caller,
      None when an exception ended the run. */
  function Run(s: State, redirects: nat, attempts: nat, n: nat, script: Script, cookieJar: bool)
    : (seq<Pass>, Option<Reply>)
    requires attempts > 0
    decreases redirects
  {
    var (sent, s', reply) := Hop(s, attempts, n, script);
    var pass := Pass(s.request, sent, reply);
    match NextRequest(s.request, reply, cookieJar)
    case Return => ([pass], Some(reply))
    case Fail => ([pass], None)
    case Again(request) =>
      if redirects == 0 then ([pass], Some(reply))
      else
        var (rest, last) := Run(s'.(request := request), redirects - 1, attempts, n + |sent|, script, cookieJar);
        ([pass] + rest, last)
  }

  function AllSent(passes: seq<Pass>): seq<Sent> {
    if passes == [] then [] else passes[0].sent + AllSent(passes[1..])
  }

  const BODY_HEADERS := {"content-length", "content-type", "transfer-encoding"}

  predicate HasBodyHeader(h: Headers) {
    exists name :: name in h && name in BODY_HEADERS
  }

  /** A header map is keyed by lower-case names. */
  ghost predicate ProperHeaders(h: Headers) {
    forall k :: k in h ==> ToLower(h[k].name) == k
  }

  lemma StripRemoves(h: Headers)
    ensures !HasBodyHeader(StripBodyHeaders(h))
    ensures ProperHeaders(h) ==> ProperHeaders(StripBodyHeaders(h))
    ensures forall k :: k in StripBodyHeaders(h) ==> k in h && StripBodyHeaders(h)[k] == h[k]
    ensures forall k :: k in h && k !in BODY_HEADERS ==> k in StripBodyHeaders(h)
  {
    assert ToLower("Content-Length") == "content-length";
    assert ToLower("Content-Type") == "content-type";
    assert ToLower("Transfer-Encoding") == "transfer-encoding";
  }

  /** Absent for the map means absent under every spelling. */
  lemma NoBodyHeaderInAnyCase(h: Headers, name: string)
    requires !HasBodyHeader(h)
    requires ToLower(name) in BODY_HEADERS
    ensures Get(h, name).None?
  {
    assert ToLower(name) in h ==> HasBodyHeader(h);
  }

  /** The same request is sent again exactly as long as the answer is a response of status 0 and attempts are left. */
  lemma {:induction false} RetriesExactly(message: Sent, attempts: nat, n: nat, script: Script)
    requires attempts > 0
    ensures var (sent, last) := RetriedSends(message, attempts, n, script);
            && (forall k :: n <= k < n + |sent| - 1 ==> script(k).Reply? && script(k).status == 0)
            && (|sent| < attempts ==> last.Thrown? || last.status != 0)
    decreases attempts
  {
    var reply := script(n);
    if reply.Reply? && reply.status == 0 && attempts > 1 {
      RetriesExactly(message, attempts - 1, n + 1, script);
      var more := RetriedSends(message, attempts - 1, n + 1, script).0;
      assert RetriedSends(message, attempts, n, script).0 == [message] + more;
    }
  }

  /** A pass goes on over HTTP/1 exactly when it was over an HTTP/2 adapter chosen by the session and ended with a
      response of status 0 and an HTTP/2, I/O or TLS error. */
  lemma FallsBackExactly(s: State, attempts: nat, n: nat, script: Script)
    requires attempts > 0
    ensures var (first, answer) := RetriedSends(Sent(s.request, s.via), attempts, n, script);
            var (sent, after, last) := Hop(s, attempts, n, script);
            if s.attemptedHttp2 && answer.Reply? && answer.status == 0 && answer.error in {H2, Io, Tls} then
              && (sent, last) == (first + RetriedSends(Sent(s.request, Http1), attempts, n + |first|, script).0,
                                  RetriedSends(Sent(s.request, Http1), attempts, n + |first|, script).1)
              && after == State(s.request, Http1, false)
            else (sent, after, last) == (first, s, answer)
  {
    hide RetriedSends;
  }

  // ----- the redirections of section 15.4 of RFC 9110 -----

  const REDIRECTIONS := {301, 302, 303, 307, 308}

  /** 303 (See Other) always, 301 and 302 for other methods than GET and HEAD. */
  predicate BecomesGet(status: int, verb: string) {
    status == 303 || (status in {301, 302} && ToLower(verb) !in {"get", "head"})
  }

  /** GET for the target, without a body and the headers about one; the other headers are the same. */
  ghost predicate IsGetFor(next: Request, request: Request, url: string) {
    && next.verb == "GET" && next.url == url && next.body == ""
    && forall k :: (k in next.headers <==> k in request.headers && k !in BODY_HEADERS)
                   && (k in next.headers ==> next.headers[k] == request.headers[k])
  }

  /** What the loop does with every reply: which statuses it follows, where to, and with which request. */
  lemma RedirectRules(request: Request, reply: Reply, cookieJar: bool)
    ensures var next := NextRequest(request, reply, cookieJar);
            if reply.Thrown? || (cookieJar && ParseUrl(request.url).Err?) then next == Fail
            else
              var location := Get(reply.headers, "Location");
              if reply.status !in REDIRECTIONS || location.None? then next == Return
              else
                match ResolveRedirect(request.url, location.value)
                case None => next == Fail
                case Some(url) =>
                  && next.Again?
                  && (BecomesGet(reply.status, request.verb) ==> IsGetFor(next.request, request, url))
                  && (!BecomesGet(reply.status, request.verb) ==> next.request == request.(url := url))
  {
    StripRemoves(request.headers);
    hide StripBodyHeaders;
    hide ResolveRedirect;
    hide ParseUrl;
    hide ToLower;
  }

  /** The same status by status, for a reply with a Location that can be resolved. */
  lemma RedirectStatuses(request: Request, status: int, headers: Headers, error: ErrorCode)
    requires status in {301, 302, 303, 307, 308} && Get(headers, "Location").Some?
    requires ResolveRedirect(request.url, Get(headers, "Location").value).Some?
    ensures var url := ResolveRedirect(request.url, Get(headers, "Location").value).value;
            var next := NextRequest(request, Reply(status, headers, error), false);
            && next.Again?
            && (status == 303 ==> IsGetFor(next.request, request, url))
            && (status == 307 || status == 308 ==> next.request == request.(url := url))
            && (status <= 302 && request.verb in {"GET", "HEAD"} ==> next.request == request.(url := url))
            && (status <= 302 && request.verb in {"POST", "PUT", "DELETE", "PATCH"} ==>
                  IsGetFor(next.request, request, url))
  {
    assert ToLower("GET") == "get" && ToLower("HEAD") == "head";
    assert ToLower("POST")[0] == 'p' && ToLower("PUT")[0] == 'p' && ToLower("PATCH")[0] == 'p';
    assert ToLower("DELETE")[0] == 'd';
    hide ToLower;
    hide ResolveRedirect;
    hide StripBodyHeaders;
    RedirectRules(request, Reply(status, headers, error), false);
  }

  // ----- what holds over every run -----

  /** The original method and body, or GET without a body. */
  predicate OriginalOrGet(request: Request, verb: string, body: string) {
    (request.verb == verb && request.body == body) || (request.verb == "GET" && request.body == "")
  }

  predicate Stripped(request: Request) {
    request.verb == "GET" && request.body == "" && !HasBodyHeader(request.headers)
  }

  ghost predicate PassSendsItsRequest(p: Pass) {
    forall m :: m in p.sent ==> m.request == p.request
  }

  /** The reply of `pass` allows `next` among the later requests. */
  ghost predicate SafeStep(pass: Pass, next: Request) {
    && pass.reply.Reply? && pass.reply.status in REDIRECTIONS
    && (BecomesGet(pass.reply.status, pass.request.verb) ==> Stripped(next))
    && (Stripped(pass.request) ==> Stripped(next))
  }

  /** Every pass sends one request only; it carries the original method and body or GET and no body, and once a
      status has demanded the switch, all later requests are GET without body or body headers. */
  ghost predicate SafePasses(passes: seq<Pass>, verb: string, body: string) {
    && (forall i :: 0 <= i < |passes| ==>
          PassSendsItsRequest(passes[i]) && OriginalOrGet(passes[i].request, verb, body))
    && (forall i, j :: 0 <= i < j < |passes| ==> SafeStep(passes[i], passes[j].request))
  }

  lemma HopSendsItsRequest(s: State, attempts: nat, n: nat, script: Script)
    requires attempts > 0
    ensures forall m :: m in Hop(s, attempts, n, script).0 ==> m.request == s.request
  {
  }

  lemma StrippedStays(request: Request, reply: Reply, cookieJar: bool)
    requires NextRequest(request, reply, cookieJar).Again?
    ensures var next := NextRequest(request, reply, cookieJar).request;
            && reply.Reply? && reply.status in REDIRECTIONS
            && (BecomesGet(reply.status, request.verb) ==> Stripped(next))
            && (Stripped(request) ==> Stripped(next))
            && (!BecomesGet(reply.status, request.verb) ==>
                  next.verb == request.verb && next.body == request.body && next.headers == request.headers)
  {
    StripRemoves(request.headers);
  }

  lemma SafePassesJoin(pass: Pass, rest: seq<Pass>, verb: string, body: string)
    requires PassSendsItsRequest(pass) && OriginalOrGet(pass.request, verb, body)
    requires SafePasses(rest, verb, body)
    requires rest != [] ==> SafeStep(pass, rest[0].request)
    ensures SafePasses([pass] + rest, verb, body)
  {
    hide Stripped;
    hide OriginalOrGet;
    hide PassSendsItsRequest;
    var passes := [pass] + rest;
    forall i, j | 0 <= i < j < |passes|
      ensures SafeStep(passes[i], passes[j].request)
    {
      assert passes[j] == rest[j - 1];
      if i > 0 {
        assert passes[i] == rest[i - 1];
      } else if j > 1 {
        assert SafeStep(rest[0], rest[j - 1].request);
      }
    }
    assert forall i :: 0 < i < |passes| ==> passes[i] == rest[i - 1];
  }

  lemma {:induction false} RunIsSafe(s: State, redirects: nat, attempts: nat, n: nat, script: Script, cookieJar: bool,
                                     verb: string, body: string)
    requires attempts > 0 && OriginalOrGet(s.request, verb, body)
    ensures var passes := Run(s, redirects, attempts, n, script, cookieJar).0;
            passes != [] && passes[0].request == s.request && SafePasses(passes, verb, body)
    decreases redirects
  {
    hide Hop;
    hide NextRequest;
    hide SafePasses;
    var (sent, s', reply) := Hop(s, attempts, n, script);
    var pass := Pass(s.request, sent, reply);
    var next := NextRequest(s.request, reply, cookieJar);
    HopSendsItsRequest(s, attempts, n, script);
    NoPassesAreSafe(verb, body);
    if redirects > 0 && next.Again? {
      StrippedStays(s.request, reply, cookieJar);
      NextIsOriginalOrGet(s.request, reply, cookieJar, verb, body);
      RunIsSafe(s'.(request := next.request), redirects - 1, attempts, n + |sent|, script, cookieJar, verb, body);
      var rest := Run(s'.(request := next.request), redirects - 1, attempts, n + |sent|, script, cookieJar).0;
      SafePassesJoin(pass, rest, verb, body);
    } else {
      SafePassesJoin(pass, [], verb, body);
      assert [pass] + [] == [pass];
    }
  }

  lemma NoPassesAreSafe(verb: string, body: string)
    ensures SafePasses([], verb, body)
  {
  }

  lemma NextIsOriginalOrGet(request: Request, reply: Reply, cookieJar: bool, verb: string, body: string)
    requires NextRequest(request, reply, cookieJar).Again? && OriginalOrGet(request, verb, body)
    ensures OriginalOrGet(NextRequest(request, reply, cookieJar).request, verb, body)
  {
  }

  /** The sends use `via`, or, when a fallback is allowed, change to HTTP/1 once and for all. */
  ghost predicate FallsOnce(sent: seq<Sent>, via: Adapter, mayFall: bool) {
    && (forall i :: 0 <= i < |sent| ==> sent[i].via == via || (mayFall && sent[i].via == Http1))
    && (forall i, j :: 0 <= i < j < |sent| && sent[i].via != via ==> sent[j].via == sent[i].via)
  }

  lemma FallsOnceJoins(a: seq<Sent>, b: seq<Sent>, via: Adapter, fell: bool, mayFall: bool)
    requires FallsOnce(a, via, fell) && (fell ==> mayFall)
    requires if fell then FallsOnce(b, Http1, false) else FallsOnce(b, via, mayFall)
    ensures FallsOnce(a + b, via, mayFall)
  {
  }

  function Flag(b: bool): nat {
    if b then 1 else 0
  }

  lemma HopBounds(s: State, attempts: nat, n: nat, script: Script)
    requires attempts > 0
    ensures var (sent, s', reply) := Hop(s, attempts, n, script);
            var fell := s.attemptedHttp2 && !s'.attemptedHttp2;
            && |sent| <= (1 + Flag(fell)) * attempts
            && s' == (if fell then FallBack(s) else s)
            && FallsOnce(sent, s.via, fell)
  {
    var first := RetriedSends(Sent(s.request, s.via), attempts, n, script);
    if FallsBack(s, first.1) {
      var again := RetriedSends(Sent(s.request, Http1), attempts, n + |first.0|, script);
      assert forall i :: 0 <= i < |first.0| ==> first.0[i] in first.0;
      assert forall i :: 0 <= i < |again.0| ==> again.0[i] in again.0;
      Distributes(1, 1, attempts);
    } else {
      assert forall i :: 0 <= i < |first.0| ==> first.0[i] in first.0;
    }
  }

  lemma Distributes(a: nat, b: nat, x: nat)
    ensures a * x + b * x == (a + b) * x
  {
  }

  /** One pass more: the fallback is paid for once. */
  lemma CountStep(sent: nat, rest: nat, fell: nat, left: nat, redirects: nat, attempts: nat)
    requires sent <= (1 + fell) * attempts
    requires redirects > 0 && rest <= (redirects + left) * attempts
    ensures sent + rest <= (redirects + 1 + (fell + left)) * attempts
  {
    Distributes(1 + fell, redirects + left, attempts);
    assert 1 + fell + (redirects + left) == redirects + 1 + (fell + left);
  }

  lemma CountLast(sent: nat, fell: nat, flag: nat, redirects: nat, attempts: nat)
    requires sent <= (1 + fell) * attempts && fell <= flag
    ensures sent <= (redirects + 1 + flag) * attempts
  {
    Distributes(1 + fell, redirects + flag - fell, attempts);
  }

  /** A run has at most one pass more than redirects, at most one change of adapter, and each pass, as well as
      the fallback, costs at most `attempts` sends. */
  lemma {:induction false} RunBounds(s: State, redirects: nat, attempts: nat, n: nat, script: Script, cookieJar: bool)
    requires attempts > 0
    ensures var passes := Run(s, redirects, attempts, n, script, cookieJar).0;
            && |passes| <= redirects + 1
            && |AllSent(passes)| <= (redirects + 1 + Flag(s.attemptedHttp2)) * attempts
            && FallsOnce(AllSent(passes), s.via, s.attemptedHttp2)
    decreases redirects
  {
    hide NextRequest;
    hide Hop;
    hide FallsOnce;
    var (sent, s', reply) := Hop(s, attempts, n, script);
    var next := NextRequest(s.request, reply, cookieJar);
    var passes := Run(s, redirects, attempts, n, script, cookieJar).0;
    var fell := s.attemptedHttp2 && !s'.attemptedHttp2;
    HopBounds(s, attempts, n, script);
    assert AllSent(passes) == sent + AllSent(passes[1..]);
    if redirects == 0 || !next.Again? {
      assert passes[1..] == [];
      hide Run;
      NothingFalls(if fell then Http1 else s.via);
      FallsOnceJoins(sent, [], s.via, fell, s.attemptedHttp2);
      CountLast(|sent|, Flag(fell), Flag(s.attemptedHttp2), redirects, attempts);
    } else {
      var state := s'.(request := next.request);
      RunBounds(state, redirects - 1, attempts, n + |sent|, script, cookieJar);
      assert passes[1..] == Run(state, redirects - 1, attempts, n + |sent|, script, cookieJar).0;
      hide Run;
      FallsOnceJoins(sent, AllSent(passes[1..]), s.via, fell, s.attemptedHttp2);
      CountStep(|sent|, |AllSent(passes[1..])|, Flag(fell), Flag(s'.attemptedHttp2), redirects, attempts);
    }
  }

  lemma NothingFalls(via: Adapter)
    ensures AllSent([]) == [] && forall mayFall :: FallsOnce([], via, mayFall)
  {
  }

  // ----- where a run goes -----

  /** The Location that a pass was answered with. */
  function LocationOf(p: Pass): Option<string> {
    if p.reply.Thrown? then None else Get(p.reply.headers, "Location")
  }

  /** Every pass but the last was answered by a redirect, and the next one requests its target. */
  ghost predicate IsChain(passes: seq<Pass>, url: string) {
    passes != [] ==>
      && passes[0].request.url == url
      && (|passes| > 1 ==>
            && passes[0].reply.Reply? && passes[0].reply.status in REDIRECTIONS && LocationOf(passes[0]).Some?
            && var next := ResolveRedirect(url, LocationOf(passes[0]).value);
               next.Some? && IsChain(passes[1..], next.value))
  }

  /** The reply is none to follow. */
  predicate IsFinal(reply: Reply) {
    reply.Reply? && (reply.status !in REDIRECTIONS || Get(reply.headers, "Location").None?)
  }

  lemma HopAnswer(s: State, attempts: nat, n: nat, script: Script)
    requires attempts > 0
    ensures var hop := Hop(s, attempts, n, script); |hop.0| > 0 && hop.2 == script(n + |hop.0| - 1)
  {
  }

  /** The caller gets the answer to the last send, which is not to be followed or has used up the redirects; an
      exception ends the run only where a send threw or the current URL does not parse. */
  ghost predicate EndsRightly(passes: seq<Pass>, last: Option<Reply>, redirects: nat, n: nat, script: Script) {
    && passes != [] && |AllSent(passes)| > 0
    && var final := passes[|passes| - 1];
       && final.reply == script(n + |AllSent(passes)| - 1)
       && match last
          case Some(reply) => reply == final.reply && (IsFinal(reply) || |passes| == redirects + 1)
          case None => final.reply.Thrown? || ParseUrl(final.request.url).Err?
  }

  lemma OnlyPass(s: State, redirects: nat, attempts: nat, n: nat, script: Script, cookieJar: bool)
    requires attempts > 0
    requires redirects == 0 || !NextRequest(s.request, Hop(s, attempts, n, script).2, cookieJar).Again?
    ensures var (passes, last) := Run(s, redirects, attempts, n, script, cookieJar);
            IsChain(passes, s.request.url) && EndsRightly(passes, last, redirects, n, script)
  {
    var (sent, s', reply) := Hop(s, attempts, n, script);
    HopAnswer(s, attempts, n, script);
    NoTarget(s.request.url, reply);
    hide ParseUrl;
    hide Hop;
    hide ResolveRedirect;
    hide StripBodyHeaders;
    hide ShouldSwitchToGet;
    assert AllSent([Pass(s.request, sent, reply)]) == sent + AllSent([]);
  }

  lemma OneMorePass(pass: Pass, rest: seq<Pass>, last: Option<Reply>, redirects: nat, n: nat, script: Script)
    requires redirects > 0 && EndsRightly(rest, last, redirects - 1, n + |pass.sent|, script)
    ensures EndsRightly([pass] + rest, last, redirects, n, script)
  {
    hide ParseUrl;
    hide IsFinal;
    var passes := [pass] + rest;
    assert passes[1..] == rest;
    assert AllSent(passes) == pass.sent + AllSent(rest);
    hide AllSent;
    assert passes[|passes| - 1] == rest[|rest| - 1];
    assert n + |pass.sent| + |AllSent(rest)| - 1 == n + |AllSent(passes)| - 1;
  }

  lemma ChainGrows(pass: Pass, rest: seq<Pass>, cookieJar: bool)
    requires NextRequest(pass.request, pass.reply, cookieJar).Again?
    requires rest != [] && IsChain(rest, NextRequest(pass.request, pass.reply, cookieJar).request.url)
    ensures IsChain([pass] + rest, pass.request.url)
  {
    NextUrl(pass.request, pass.reply, cookieJar);
    hide NextRequest;
    hide ResolveRedirect;
    hide IsRedirectStatus;
    assert ([pass] + rest)[1..] == rest;
  }

  /** The requests of a run follow the redirects one by one, and the run ends rightly. */
  lemma {:induction false} RunIsChain(s: State, redirects: nat, attempts: nat, n: nat, script: Script, cookieJar: bool)
    requires attempts > 0
    ensures var (passes, last) := Run(s, redirects, attempts, n, script, cookieJar);
            IsChain(passes, s.request.url) && EndsRightly(passes, last, redirects, n, script)
    decreases redirects
  {
    hide Hop;
    hide NextRequest;
    hide IsChain;
    var (sent, s', reply) := Hop(s, attempts, n, script);
    var next := NextRequest(s.request, reply, cookieJar);
    if redirects > 0 && next.Again? {
      var state := s'.(request := next.request);
      RunIsChain(state, redirects - 1, attempts, n + |sent|, script, cookieJar);
      var (rest, last) := Run(state, redirects - 1, attempts, n + |sent|, script, cookieJar);
      var pass := Pass(s.request, sent, reply);
      assert Run(s, redirects, attempts, n, script, cookieJar) == ([pass] + rest, last);
      hide Run;
      OneMorePass(pass, rest, last, redirects, n, script);
      hide EndsRightly;
      ChainGrows(pass, rest, cookieJar);
    } else {
      hide EndsRightly;
      OnlyPass(s, redirects, attempts, n, script, cookieJar);
    }
  }

  lemma NoTarget(url: string, reply: Reply)
    ensures reply.Reply? && Get(reply.headers, "Location").Some? &&
            ResolveRedirect(url, Get(reply.headers, "Location").value).None?
            ==> ParseUrl(url).Err?
  {
    hide ParseUrl;
  }

  lemma NextUrl(request: Request, reply: Reply, cookieJar: bool)
    requires NextRequest(request, reply, cookieJar).Again?
    ensures reply.Reply? && reply.status in REDIRECTIONS && Get(reply.headers, "Location").Some?
    ensures ResolveRedirect(request.url, Get(reply.headers, "Location").value)
            == Some(NextRequest(request, reply, cookieJar).request.url)
  {
    hide ResolveRedirect;
    hide ParseUrl;
  }

  /** Every redirect of the chain is read as a path, and the paths stay measurable by a 64-bit length. */
  ghost predicate StaysLocal(passes: seq<Pass>) {
    forall i :: 0 <= i < |passes| - 1 ==>
      LocationOf(passes[i]).Some? && ReadAsPath(LocationOf(passes[i]).value) &&
      (ParseUrl(passes[i].request.url).Ok? ==>
         |ParseUrl(passes[i].request.url).value.path| + |LocationOf(passes[i]).value| < SIZE_MODULUS)
  }

  /** Then all requests of the run go to the origin of the first. */
  lemma {:induction false} ChainStaysAtOrigin(passes: seq<Pass>, url: string, i: nat)
    requires IsChain(passes, url) && StaysLocal(passes) && GoodUrl(url) && i < |passes|
    ensures GoodUrl(passes[i].request.url) && SameOrigin(ParseUrl(url).value, ParseUrl(passes[i].request.url).value)
    decreases i
  {
    hide ParseUrl;
    hide ResolveRedirect;
    hide WellFormed;
    hide ReadAsPath;
    if i > 0 {
      var location := LocationOf(passes[0]).value;
      ResolveKeepsOrigin(url, location);
      StaysLocalRest(passes);
      hide StaysLocal;
      ChainStaysAtOrigin(passes[1..], ResolveRedirect(url, location).value, i - 1);
    }
  }

  lemma StaysLocalRest(passes: seq<Pass>)
    requires StaysLocal(passes) && passes != []
    ensures StaysLocal(passes[1..])
  {
    hide ParseUrl;
    hide ReadAsPath;
    hide LocationOf;
    forall i | 0 <= i < |passes[1..]| - 1
      ensures LocationOf(passes[1..][i]).Some? && ReadAsPath(LocationOf(passes[1..][i]).value)
    {
      assert passes[1..][i] == passes[i + 1];
    }
    forall i | 0 <= i < |passes[1..]| - 1 && ParseUrl(passes[1..][i].request.url).Ok?
      ensures |ParseUrl(passes[1..][i].request.url).value.path| + |LocationOf(passes[1..][i]).value| < SIZE_MODULUS
    {
      assert passes[1..][i] == passes[i + 1];
    }
  }

  /** One turn of the loop: what a run sends and returns, from its first pass. */
  lemma {:induction false} RunUnfolds(s: State, redirects: nat, attempts: nat, n: nat, script: Script, cookieJar: bool)
    requires attempts > 0
    ensures var hop := Hop(s, attempts, n, script);
            var (passes, last) := Run(s, redirects, attempts, n, script, cookieJar);
            match NextRequest(s.request, hop.2, cookieJar)
            case Return => AllSent(passes) == hop.0 && last == Some(hop.2)
            case Fail => AllSent(passes) == hop.0 && last == None
            case Again(request) =>
              if redirects == 0 then AllSent(passes) == hop.0 && last == Some(hop.2)
              else
                var rest := Run(hop.1.(request := request), redirects - 1, attempts, n + |hop.0|, script, cookieJar);
                AllSent(passes) == hop.0 + AllSent(rest.0) && last == rest.1
  {
    hide Hop;
    hide NextRequest;
    var hop := Hop(s, attempts, n, script);
    var passes := Run(s, redirects, attempts, n, script, cookieJar).0;
    assert AllSent(passes) == hop.0 + AllSent(passes[1..]);
    NothingFalls(Http1);
  }

  /** The guarantees of one call, from the state it starts in: at most (max_redirects + 2) * attempts sends, at
      most one change of adapter, and safe passes. */
  lemma CallIsSafe(start: State, maxRedirects: nat, attempts: nat, n: nat, script: Script, cookieJar: bool)
    requires attempts > 0
    ensures var passes := Run(start, maxRedirects, attempts, n, script, cookieJar).0;
            && SafePasses(passes, start.request.verb, start.request.body)
            && |AllSent(passes)| <= (maxRedirects + 2) * attempts
            && FallsOnce(AllSent(passes), start.via, start.attemptedHttp2)
  {
    hide Run;
    hide SafePasses;
    hide FallsOnce;
    RunIsSafe(start, maxRedirects, attempts, n, script, cookieJar, start.request.verb, start.request.body);
    RunBounds(start, maxRedirects, attempts, n, script, cookieJar);
    Distributes(maxRedirects + 1 + Flag(start.attemptedHttp2), 1 - Flag(start.attemptedHttp2), attempts);
  }
}
