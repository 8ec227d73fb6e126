/** Session::request and send_with_retries as code, against the runs of module Redirects. */
module Sessions {
  import opened Text
  import opened HeaderMap
  import opened Urls
  import opened Redirects

  /** The network as the loop sees it: every send is logged and answered by the script. */
  class Wire {
    const script: Script
    var sent: seq<Sent>

    constructor (script: Script)
      ensures this.script == script && sent == []
    {
      this.script, sent := script, [];
    }

    /** Adapter::send */
    method Send(message: Sent) returns (reply: Reply)
      modifies this
      ensures sent == old(sent) + [message] && reply == script(|old(sent)|)
    {
      reply := script(|sent|);
      sent := sent + [message];
    }
  }

  class Session {
    var adapter: Adapter
    var http2Enabled: bool
    var cookieJar: bool
    const maxRedirects: nat

    constructor (http2Enabled: bool, cookieJar: bool, maxRedirects: nat)
      ensures adapter == Http1 && this.http2Enabled == http2Enabled && this.cookieJar == cookieJar
      ensures this.maxRedirects == maxRedirects
    {
      adapter, this.http2Enabled, this.cookieJar, this.maxRedirects := Http1, http2Enabled, cookieJar, maxRedirects;
    }

    /** std::max(0, retries) + 1 */
    static function Attempts(retries: int): nat {
      (if retries > 0 then retries else 0) + 1
    }

    /** send_with_retries */
    method SendWithRetries(wire: Wire, request: Request, retries: int) returns (reply: Reply)
      modifies wire
      ensures var expected := RetriedSends(Sent(request, adapter), Attempts(retries), |old(wire.sent)|, wire.script);
              wire.sent == old(wire.sent) + expected.0 && reply == expected.1
    {
      hide RetriedSends;
      var attempts := Attempts(retries);
      var message := Sent(request, adapter);
      ghost var all := RetriedSends(message, attempts, |wire.sent|, wire.script);
      reply := Reply(0, map[], Unknown);
      var attempt := 0;
      while attempt < attempts
        invariant 0 <= attempt <= attempts
        invariant attempt < attempts ==>
          var left := RetriedSends(message, attempts - attempt, |wire.sent|, wire.script);
          wire.sent + left.0 == old(wire.sent) + all.0 && left.1 == all.1
        invariant attempt == attempts ==> wire.sent == old(wire.sent) + all.0 && reply == all.1
      {
        NextAttempt(message, attempts - attempt, wire.sent, wire.script);
        reply := wire.Send(message);
        if reply.Thrown? || reply.status != 0 {
          return;
        }
        attempt := attempt + 1;
      }
    }

    /** The adapter choice at the start of Session::request. */
    function StartState(verb: string, url: string, body: string, headers: Headers, http2Available: bool): State
      reads this
    {
      var via := if !http2Enabled then adapter else if http2Available then Http2 else Http1;
      State(Request(verb, url, body, headers), via, http2Enabled && http2Available)
    }

    /** One pass of the loop: the sends, and once more over HTTP/1 when HTTP/2 failed. */
    method PerformPass(wire: Wire, state: State, retries: int) returns (after: State, reply: Reply)
      requires adapter == state.via
      modifies wire, `adapter
      ensures var hop := Hop(state, Attempts(retries), |old(wire.sent)|, wire.script);
              wire.sent == old(wire.sent) + hop.0 && after == hop.1 && reply == hop.2
      ensures adapter == after.via
    {
      hide RetriedSends;
      after := state;
      reply := SendWithRetries(wire, state.request, retries);
      if FallsBack(state, reply) {
        adapter := Http1;
        after := FallBack(state);
        reply := SendWithRetries(wire, state.request, retries);
      }
    }

    /** Session::request: None when an exception ended it. The sends are those of the run. */
    method PerformRequest(wire: Wire, verb: string, url: string, body: string, headers: Headers, retries: int,
                          http2Available: bool)
      returns (response: Option<Reply>)
      modifies wire, `adapter
      ensures var start := old(StartState(verb, url, body, headers, http2Available));
              var run := Run(start, maxRedirects, Attempts(retries), |old(wire.sent)|, wire.script, cookieJar);
              if cookieJar && ParseUrl(url).Err? then wire.sent == old(wire.sent) && response.None?
              else wire.sent == old(wire.sent) + AllSent(run.0) && response == run.1
    {
      hide ParseUrl;
      hide Run;
      hide Hop;
      hide NextRequest;
      hide AllSent;
      if cookieJar && ParseUrl(url).Err? { return None; }
      var state := StartState(verb, url, body, headers, http2Available);
      adapter := state.via;
      var attempts := Attempts(retries);
      ghost var run := Run(state, maxRedirects, attempts, |wire.sent|, wire.script, cookieJar);
      ghost var left := run;
      var redirect := 0;
      while true
        invariant 0 <= redirect <= maxRedirects && adapter == state.via
        invariant left == Run(state, maxRedirects - redirect, attempts, |wire.sent|, wire.script, cookieJar)
        invariant wire.sent + AllSent(left.0) == old(wire.sent) + AllSent(run.0) && left.1 == run.1
        decreases maxRedirects - redirect
      {
        ghost var before := wire.sent;
        RunUnfolds(state, maxRedirects - redirect, attempts, |before|, wire.script, cookieJar);
        ghost var hop := Hop(state, attempts, |before|, wire.script);
        var reply;
        state, reply := PerformPass(wire, state, retries);
        var next := NextRequest(state.request, reply, cookieJar);
        if next.Fail? { return None; }
        if next.Return? || redirect == maxRedirects { return Some(reply); }
        state := state.(request := next.request);
        redirect := redirect + 1;
        ghost var rest := Run(state, maxRedirects - redirect, attempts, |wire.sent|, wire.script, cookieJar);
        Regroup(before, hop.0, AllSent(rest.0));
        left := rest;
      }
    }
  }

  /** A call starts over HTTP/2 when that is enabled and available, over HTTP/1 when it is only enabled, and over the
      session's adapter otherwise; only the first of these may fall back. */
  lemma StartRules(session: Session, verb: string, url: string, body: string, headers: Headers, available: bool)
    ensures var s := session.StartState(verb, url, body, headers, available);
            && s.request == Request(verb, url, body, headers)
            && (session.http2Enabled && available ==> s.via == Http2 && s.attemptedHttp2)
            && (session.http2Enabled && !available ==> s.via == Http1 && !s.attemptedHttp2)
            && (!session.http2Enabled ==> s.via == session.adapter && !s.attemptedHttp2)
  {
  }

  /** One attempt, and one more for each retry asked for. */
  lemma AttemptRules(retries: int)
    ensures retries <= 0 ==> Session.Attempts(retries) == 1
    ensures retries >= 0 ==> Session.Attempts(retries) == retries + 1
  {
  }

  /** The next attempt, behind what has been sent. */
  lemma NextAttempt(message: Sent, attempts: nat, sent: seq<Sent>, script: Script)
    requires attempts > 0
    ensures var reply, all := script(|sent|), RetriedSends(message, attempts, |sent|, script);
            if reply.Thrown? || reply.status != 0 || attempts == 1 then
              sent + all.0 == sent + [message] && all.1 == reply
            else
              var more := RetriedSends(message, attempts - 1, |sent| + 1, script);
              sent + all.0 == (sent + [message]) + more.0 && all.1 == more.1
  {
    var more := RetriedSends(message, if attempts == 1 then 1 else attempts - 1, |sent| + 1, script).0;
    OneMore(sent, message, more);
  }

  lemma Regroup(a: seq<Sent>, b: seq<Sent>, c: seq<Sent>)
    ensures a + (b + c) == (a + b) + c
  {
  }

  lemma OneMore(sent: seq<Sent>, message: Sent, more: seq<Sent>)
    ensures sent + ([message] + more) == (sent + [message]) + more
  {
  }
}
