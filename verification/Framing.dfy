/** Where a response ends: find_complete_body_end_impl against the message length of section 6.3 of RFC 9112. */
module Framing {
  import opened Text
  import opened Numbers
  import opened HeaderMap
  import opened Chunked
  import opened Http1
  import opened Receive
  import opened ChunkedResponse

  // ----- the standard -----

  datatype BodyLength = NoBody | ChunkedBody | Length(n: nat) | UntilClose

  /** A Content-Length, if there is one, is a number. */
  predicate HasGoodLength(h: Headers) {
    var v := Get(h, "Content-Length");
    v.Some? ==> v.value != "" && AllDigits(v.value, 10)
  }

  /** The answer to a successful CONNECT request is a tunnel. */
  predicate OpensTunnel(status: int, verb: string) {
    verb == "CONNECT" && 200 <= status < 300
  }

  /** A response to HEAD, or an informational, 204 (No Content) or 304 (Not Modified) one. */
  predicate NeverHasBody(status: int, verb: string) {
    ToLower(verb) == "head" || 100 <= status <= 199 || status in {204, 304}
  }

  predicate EndsWithChunked(codings: seq<string>) {
    codings != [] && codings[|codings| - 1] == "chunked"
  }

  /** The rules of section 6.3 in their order, on the fields as recorded, with HEAD in any case as the code has it. */
  function StandardLength(h: Headers, status: int, verb: string): BodyLength
    requires HasGoodLength(h)
  {
    if NeverHasBody(status, verb) || OpensTunnel(status, verb) then NoBody
    else
      match Get(h, "Transfer-Encoding")
      case Some(te) => if EndsWithChunked(SplitEncodings(te)) then ChunkedBody else UntilClose
      case None =>
        match Get(h, "Content-Length")
        case Some(v) => Length(NatOf(v, 10))
        case None => UntilClose
  }

  ghost predicate IsChunkedBody(body: string, chunks: seq<Chunk>, last: Chunk, trailers: seq<Trailer>, rest: string) {
    ValidChunks(chunks) && ValidLast(last) && ValidTrailers(trailers) && body == Encode(chunks, last, trailers, rest)
  }

  /** The body ends after `e` of the bytes received behind the head. */
  ghost predicate EndsAt(length: BodyLength, body: string, e: nat) {
    match length
    case NoBody => e == 0
    case Length(n) => e == n <= |body|
    case UntilClose => false
    case ChunkedBody =>
      exists chunks, last, trailers, rest ::
        IsChunkedBody(body, chunks, last, trailers, rest) && e == |body| - |rest|
  }

  ghost predicate IsComplete(length: BodyLength, body: string) {
    exists e: nat :: EndsAt(length, body, e)
  }

  // ----- the code -----

  /** What the stop test computes from the bytes behind the head. */
  function CodeEnd(h: Headers, status: int, verb: string, start: nat, body: string): Option<nat> {
    if IsHead(verb) || StatusHasNoBody(status) then Some(start)
    else if MentionsChunked(h) then
      var t := Find(body, TERMINATOR, 0);
      if t.None? then None else Some(start + t.value + 5)
    else if ContentLength(h) > 0 then
      var end := (start + ContentLength(h)) % SIZE_MODULUS;
      if start + |body| >= end then Some(end) else None
    else if ConnectionClose(h) then Some(start + |body|)
    else None
  }

  lemma StopIs(head: string, body: string, verb: string)
    requires IsMessageHead(head)
    ensures var raw := Message(head, body);
            && HeadEnd(raw) == Some(|head|) && |head| <= |raw|
            && StopEnd(raw, |head|, verb) == CodeEnd(HeadFields(head, Trim), HeadStatus(head), verb, |head| + 4, body)
            && (HasCompleteResponse(raw, verb, false) <==> StopEnd(raw, |head|, verb).Some?)
  {
    hide HeadFields;
    hide HeadStatus;
    hide ContentLength;
    hide HeaderMentions;
    hide IsMessageHead;
    hide Find;
    MessageParts(head, body);
    CleaningKeepsFraming(head);
    assert |Message(head, body)| == |head| + 4 + |body|;
  }

  /** The number that the code reads from a well-formed Content-Length. */
  lemma LengthRead(h: Headers)
    requires HasGoodLength(h)
    ensures var v := Get(h, "Content-Length");
            ContentLength(h) == if v.None? || NatOf(v.value, 10) >= SIZE_MODULUS then 0 else NatOf(v.value, 10)
  {
    hide Get;
    hide Numeral;
    var v := Get(h, "Content-Length");
    if v.Some? {
      NumeralOfDigits(v.value, 10);
    }
  }

  // ----- when they agree -----

  /** For these heads, the stop test waits for as many bytes as the standard asks for. */
  predicate StopsAsStandard(h: Headers, status: int, verb: string, start: nat) {
    if IsHead(verb) || StatusHasNoBody(status) then true
    else if MentionsChunked(h) then false
    else if ContentLength(h) > 0 then
      if OpensTunnel(status, verb) then start + ContentLength(h) >= SIZE_MODULUS
      else Get(h, "Transfer-Encoding").None? && start + ContentLength(h) < SIZE_MODULUS
    else ConnectionClose(h) <==> OpensTunnel(status, verb) || IsZeroLength(h)
  }

  /** A Content-Length of 0 and no transfer coding. */
  predicate IsZeroLength(h: Headers) {
    var v := Get(h, "Content-Length");
    Get(h, "Transfer-Encoding").None? && v.Some? && NatOf(v.value, 10) == 0
  }

  /** The stop test agrees with the standard for every body that may follow a head. */
  ghost predicate AgreesOnComplete(h: Headers, status: int, verb: string, start: nat)
    requires HasGoodLength(h)
  {
    forall body: string | start + |body| < SIZE_MODULUS ::
      CodeEnd(h, status, verb, start, body).Some? <==> IsComplete(StandardLength(h, status, verb), body)
  }

  /** Every coding of a list can be found in the text of the list. */
  lemma {:induction false} CodingIsMentioned(value: string, coding: string)
    requires coding in SplitEncodings(value)
    ensures Contains(ToLower(value), coding)
    decreases |value|
  {
    hide Trim;
    hide ToLower;
    hide Contains;
    hide CutAt;
    var (item, rest) := CutAt(value, ',');
    CutAtRejoins(value, ',');
    var tail := if rest.None? then "" else "," + rest.value;
    assert value == item + tail;
    if coding == ToLower(Trim(item)) {
      TokenInItem(item, tail);
    } else {
      CodingIsMentioned(rest.value, coding);
      MentionedBehind(item + ",", rest.value, coding);
      assert (item + ",") + rest.value == item + tail;
    }
  }

  lemma TokenInItem(item: string, tail: string)
    ensures Contains(ToLower(item + tail), ToLower(Trim(item)))
  {
    TrimIsCore(item);
    var a: string, b: string :| AllSpace(a) && AllSpace(b) && item == a + Trim(item) + b;
    var core := Trim(item);
    assert item + tail == (a + core) + (b + tail);
    hide Trim;
    hide Find;
    ToLowerConcat(a + core, b + tail);
    ToLowerConcat(a, core);
    OccurrenceInside(ToLower(a), ToLower(core), ToLower(b + tail));
  }

  lemma OccurrenceInside(a: string, w: string, b: string)
    ensures Contains(a + w + b, w)
  {
    assert (a + w + b)[|a|..|a| + |w|] == w;
    assert OccursAt(a + w + b, w, |a|);
  }

  lemma MentionedBehind(a: string, b: string, w: string)
    requires Contains(ToLower(b), w)
    ensures Contains(ToLower(a + b), w)
  {
    hide Find;
    hide ToLower;
    ToLowerConcat(a, b);
    var k := Find(ToLower(b), w, 0).value;
    OccursAtBehind(ToLower(a), ToLower(b), w, k);
  }

  /** A final chunked coding is one that the code sees. */
  lemma ChunkedIsMentioned(h: Headers)
    requires Get(h, "Transfer-Encoding").Some? && EndsWithChunked(SplitEncodings(Get(h, "Transfer-Encoding").value))
    ensures MentionsChunked(h)
  {
    hide Find;
    hide ToLower;
    hide SplitEncodings;
    var te := Get(h, "Transfer-Encoding").value;
    CodingIsMentioned(te, "chunked");
  }

  // ----- bodies that tell the two apart -----

  const EMPTY_CHUNKED := "0\r\n\r\n"

  lemma EmptyChunkedIsComplete()
    ensures EndsAt(ChunkedBody, EMPTY_CHUNKED, 5) && IsComplete(ChunkedBody, EMPTY_CHUNKED)
    ensures Find(EMPTY_CHUNKED, TERMINATOR, 0).None?
  {
    var last := Chunk("0", "", "");
    assert "0"[..0] == "";
    assert NatOf("0", 16) == 0;
    var body := EMPTY_CHUNKED;
    assert Encode([], last, [], "") == body;
    assert IsChunkedBody(body, [], last, [], "") && |body| - |""| == 5;
    assert EndsAt(ChunkedBody, body, 5);
  }

  lemma CompleteWhen(length: BodyLength, body: string)
    ensures length.NoBody? ==> IsComplete(length, body)
    ensures length.Length? ==> (IsComplete(length, body) <==> |body| >= length.n)
    ensures length.UntilClose? ==> !IsComplete(length, body)
  {
    if length.NoBody? {
      assert EndsAt(length, body, 0);
    } else if length.Length? && |body| >= length.n {
      assert EndsAt(length, body, length.n);
    }
  }

  /** Where the stop test waits for a number of bytes. */
  lemma CodeLengthIs(h: Headers, status: int, verb: string, start: nat, body: string)
    requires !(IsHead(verb) || StatusHasNoBody(status)) && !MentionsChunked(h) && ContentLength(h) > 0
    requires start + |body| < SIZE_MODULUS
    ensures var n := ContentLength(h);
            CodeEnd(h, status, verb, start, body) ==
            if start + n >= SIZE_MODULUS then Some(start + n - SIZE_MODULUS)
            else if |body| >= n then Some(start + n) else None
  {
    hide HeaderMentions;
    var n := ContentLength(h);
    if start + n < SIZE_MODULUS {
      SmallModulo(start + n, SIZE_MODULUS);
    } else {
      WrappedModulo(start, n);
    }
  }

  lemma WrappedModulo(start: nat, n: nat)
    requires start < SIZE_MODULUS && n < SIZE_MODULUS && start + n >= SIZE_MODULUS
    ensures (start + n) % SIZE_MODULUS == start + n - SIZE_MODULUS
  {
    var r := start + n - SIZE_MODULUS;
    assert start + n == 1 * SIZE_MODULUS + r;
  }

  /** The standard's reading of a head whose fields do not mention a chunked coding. */
  lemma StandardIs(h: Headers, status: int, verb: string)
    requires HasGoodLength(h) && !MentionsChunked(h) && !(IsHead(verb) || StatusHasNoBody(status))
    ensures StandardLength(h, status, verb) ==
            if OpensTunnel(status, verb) then NoBody
            else if Get(h, "Transfer-Encoding").Some? || Get(h, "Content-Length").None? then UntilClose
            else Length(NatOf(Get(h, "Content-Length").value, 10))
  {
    hide HeaderMentions;
    hide SplitEncodings;
    if Get(h, "Transfer-Encoding").Some? && EndsWithChunked(SplitEncodings(Get(h, "Transfer-Encoding").value)) {
      ChunkedIsMentioned(h);
    }
  }

  // ----- the theorem, case by case -----

  lemma Disagrees(h: Headers, status: int, verb: string, start: nat, body: string)
    requires HasGoodLength(h) && start + |body| < SIZE_MODULUS
    requires CodeEnd(h, status, verb, start, body).Some? != IsComplete(StandardLength(h, status, verb), body)
    ensures !AgreesOnComplete(h, status, verb, start)
  {
  }

  /** Whatever the standard says of a head that mentions chunked, the search for the terminator gets some body wrong. */
  lemma SearchDisagrees(h: Headers, status: int, verb: string, start: nat)
    requires HasGoodLength(h) && MentionsChunked(h) && !(IsHead(verb) || StatusHasNoBody(status))
    requires start + 16 < SIZE_MODULUS
    ensures !AgreesOnComplete(h, status, verb, start)
  {
    var length := StandardLength(h, status, verb);
    assert Get(h, "Transfer-Encoding").Some?;
    assert Find(TERMINATOR, TERMINATOR, 0) == Some(0) by {
      assert TERMINATOR[0..7] == TERMINATOR;
    }
    EmptyChunkedIsComplete();
    assert Find("", TERMINATOR, 0).None?;
    hide StandardLength;
    hide HeaderMentions;
    hide Find;
    hide IsComplete;
    if length.ChunkedBody? {
      Disagrees(h, status, verb, start, EMPTY_CHUNKED);
    } else if length.NoBody? {
      CompleteWhen(length, "");
      Disagrees(h, status, verb, start, "");
    } else {
      SearchIsNotLength(h, status, verb);
      CompleteWhen(length, TERMINATOR);
      Disagrees(h, status, verb, start, TERMINATOR);
    }
  }

  lemma SearchIsNotLength(h: Headers, status: int, verb: string)
    requires HasGoodLength(h) && MentionsChunked(h)
    ensures !StandardLength(h, status, verb).Length?
  {
    hide SplitEncodings;
    hide NatOf;
  }

  /** Heads with a length that the code reads as positive. */
  lemma LengthAgrees(h: Headers, status: int, verb: string, start: nat, body: string)
    requires HasGoodLength(h) && !MentionsChunked(h) && !(IsHead(verb) || StatusHasNoBody(status))
    requires ContentLength(h) > 0 && start + |body| < SIZE_MODULUS
    requires StopsAsStandard(h, status, verb, start)
    ensures CodeEnd(h, status, verb, start, body).Some? <==> IsComplete(StandardLength(h, status, verb), body)
  {
    StandardIs(h, status, verb);
    LengthRead(h);
    CodeLengthIs(h, status, verb, start, body);
    CompleteWhen(StandardLength(h, status, verb), body);
    hide StandardLength;
    hide HeaderMentions;
    hide CodeEnd;
    hide IsComplete;
    hide OpensTunnel;
    hide ContentLength;
    hide NatOf;
    hide HasGoodLength;
  }

  /** A body of the stated length, which the code takes and the standard does not, or none at all. */
  lemma LengthDisagrees(h: Headers, status: int, verb: string, start: nat)
    requires HasGoodLength(h) && !MentionsChunked(h) && !(IsHead(verb) || StatusHasNoBody(status))
    requires ContentLength(h) > 0 && start + 16 < SIZE_MODULUS
    requires !StopsAsStandard(h, status, verb, start)
    ensures !AgreesOnComplete(h, status, verb, start)
  {
    StandardIs(h, status, verb);
    LengthRead(h);
    hide StandardLength;
    hide HeaderMentions;
    hide CodeEnd;
    hide IsComplete;
    hide OpensTunnel;
    hide ContentLength;
    hide NatOf;
    hide HasGoodLength;
    hide AgreesOnComplete;
    var n, length := ContentLength(h), StandardLength(h, status, verb);
    var body := if length.UntilClose? && start + n < SIZE_MODULUS then seq(n, _ => 'x') else "";
    CodeLengthIs(h, status, verb, start, body);
    CompleteWhen(length, body);
    Disagrees(h, status, verb, start, body);
  }

  lemma LengthCase(h: Headers, status: int, verb: string, start: nat)
    requires HasGoodLength(h) && !MentionsChunked(h) && !(IsHead(verb) || StatusHasNoBody(status))
    requires ContentLength(h) > 0 && start + 16 < SIZE_MODULUS
    ensures AgreesOnComplete(h, status, verb, start) <==> StopsAsStandard(h, status, verb, start)
  {
    hide StopsAsStandard;
    hide StandardLength;
    hide CodeEnd;
    hide IsComplete;
    hide HeaderMentions;
    hide ContentLength;
    if StopsAsStandard(h, status, verb, start) {
      forall body: string | start + |body| < SIZE_MODULUS
        ensures CodeEnd(h, status, verb, start, body).Some? <==> IsComplete(StandardLength(h, status, verb), body)
      {
        LengthAgrees(h, status, verb, start, body);
      }
    } else {
      LengthDisagrees(h, status, verb, start);
    }
  }

  /** Heads without such a length. */
  lemma NoLengthCase(h: Headers, status: int, verb: string, start: nat)
    requires HasGoodLength(h) && !MentionsChunked(h) && !(IsHead(verb) || StatusHasNoBody(status))
    requires ContentLength(h) == 0 && start + 16 < SIZE_MODULUS
    ensures AgreesOnComplete(h, status, verb, start) <==> StopsAsStandard(h, status, verb, start)
  {
    StandardIs(h, status, verb);
    LengthRead(h);
    hide StandardLength;
    hide HeaderMentions;
    hide IsComplete;
    hide OpensTunnel;
    var length := StandardLength(h, status, verb);
    CompleteWhen(length, "");
    if StopsAsStandard(h, status, verb, start) {
      forall body: string | start + |body| < SIZE_MODULUS
        ensures CodeEnd(h, status, verb, start, body).Some? <==> IsComplete(length, body)
      {
        CompleteWhen(length, body);
      }
    } else {
      Disagrees(h, status, verb, start, "");
    }
  }

  /** The stop test agrees with section 6.3 of RFC 9112 on every body behind a head, if and only if the response
      has no body by its method or status; or it has a positive length, neither a transfer coding nor a tunnel, and the
      end does not wrap; or it is read until close and does not say "close"; or else it has no body bytes by the
      standard, by a length of 0 or a tunnel, and does say "close". Never for a chunked body. */
  lemma StopsExactly(h: Headers, status: int, verb: string, start: nat)
    requires HasGoodLength(h) && start + 16 < SIZE_MODULUS
    ensures AgreesOnComplete(h, status, verb, start) <==> StopsAsStandard(h, status, verb, start)
  {
    if IsHead(verb) || StatusHasNoBody(status) {
      forall body: string | start + |body| < SIZE_MODULUS
        ensures CodeEnd(h, status, verb, start, body).Some? <==> IsComplete(StandardLength(h, status, verb), body)
      {
        CompleteWhen(NoBody, body);
      }
    } else if MentionsChunked(h) {
      SearchDisagrees(h, status, verb, start);
    } else if ContentLength(h) > 0 {
      LengthCase(h, status, verb, start);
    } else {
      NoLengthCase(h, status, verb, start);
    }
  }

  // ----- the place of the end -----

  /** The code finds an end if and only if the standard does, and it is the same one. */
  ghost predicate AgreesOnEnd(h: Headers, status: int, verb: string, start: nat)
    requires HasGoodLength(h)
  {
    forall body: string, end: nat | start + |body| < SIZE_MODULUS ::
      CodeEnd(h, status, verb, start, body) == Some(end)
      <==> end >= start && EndsAt(StandardLength(h, status, verb), body, end - start)
  }

  predicate EndsAsStandard(h: Headers, status: int, verb: string, start: nat) {
    || IsHead(verb) || StatusHasNoBody(status)
    || (&& !MentionsChunked(h) && !OpensTunnel(status, verb)
        && if ContentLength(h) > 0 then Get(h, "Transfer-Encoding").None? && start + ContentLength(h) < SIZE_MODULUS
           else !ConnectionClose(h) && !IsZeroLength(h))
  }

  lemma EndAgrees(h: Headers, status: int, verb: string, start: nat, body: string, end: nat)
    requires HasGoodLength(h) && start + |body| < SIZE_MODULUS
    requires EndsAsStandard(h, status, verb, start)
    ensures CodeEnd(h, status, verb, start, body) == Some(end)
            <==> end >= start && EndsAt(StandardLength(h, status, verb), body, end - start)
  {
    if !(IsHead(verb) || StatusHasNoBody(status)) {
      StandardIs(h, status, verb);
      LengthRead(h);
      if ContentLength(h) > 0 {
        CodeLengthIs(h, status, verb, start, body);
      }
    }
    hide HeaderMentions;
    hide ContentLength;
    hide NatOf;
    hide HasGoodLength;
  }

  /** A head whose bodies are complete when they should be, yet with the end elsewhere. */
  lemma EndDisagrees(h: Headers, status: int, verb: string, start: nat)
    requires HasGoodLength(h) && start + 16 < SIZE_MODULUS
    requires StopsAsStandard(h, status, verb, start) && !EndsAsStandard(h, status, verb, start)
    ensures !AgreesOnEnd(h, status, verb, start)
  {
    StandardIs(h, status, verb);
    LengthRead(h);
    hide HeaderMentions;
    hide ContentLength;
    hide NatOf;
    hide HasGoodLength;
    var length := StandardLength(h, status, verb);
    if ContentLength(h) > 0 {
      CodeLengthIs(h, status, verb, start, "");
      assert EndsAt(length, "", 0);
      assert CodeEnd(h, status, verb, start, "") != Some(start + 0);
    } else {
      assert CodeEnd(h, status, verb, start, "x") == Some(start + 1);
      assert !EndsAt(length, "x", 1);
    }
  }

  /** Same ends mean the same completeness. */
  lemma EndsGiveCompleteness(h: Headers, status: int, verb: string, start: nat)
    requires HasGoodLength(h) && AgreesOnEnd(h, status, verb, start)
    ensures AgreesOnComplete(h, status, verb, start)
  {
    hide StandardLength;
    hide CodeEnd;
    hide EndsAt;
    var length := StandardLength(h, status, verb);
    forall body: string | start + |body| < SIZE_MODULUS
      ensures CodeEnd(h, status, verb, start, body).Some? <==> IsComplete(length, body)
    {
      var end := CodeEnd(h, status, verb, start, body);
      if end.Some? {
        assert EndsAt(length, body, end.value - start);
      }
      forall e: nat | EndsAt(length, body, e)
        ensures end.Some?
      {
        EndIsFound(h, status, verb, start, body, e);
      }
    }
  }

  lemma EndIsFound(h: Headers, status: int, verb: string, start: nat, body: string, e: nat)
    requires HasGoodLength(h) && AgreesOnEnd(h, status, verb, start) && start + |body| < SIZE_MODULUS
    requires EndsAt(StandardLength(h, status, verb), body, e)
    ensures CodeEnd(h, status, verb, start, body) == Some(start + e)
  {
    hide StandardLength;
    hide CodeEnd;
    hide EndsAt;
    assert start + e - start == e;
  }

  /** The code ends the body where section 6.3 of RFC 9112 does, for every body, if and only if the response has no
      body by its method or status; or it names no chunked coding, opens no tunnel, and has a positive length without
      transfer coding whose end does not wrap, or is read until close and does not say "close". */
  lemma EndsExactly(h: Headers, status: int, verb: string, start: nat)
    requires HasGoodLength(h) && start + 16 < SIZE_MODULUS
    ensures AgreesOnEnd(h, status, verb, start) <==> EndsAsStandard(h, status, verb, start)
  {
    hide CodeEnd;
    hide EndsAt;
    hide StandardLength;
    hide AgreesOnComplete;
    if EndsAsStandard(h, status, verb, start) {
      forall body: string, end: nat | start + |body| < SIZE_MODULUS
        ensures CodeEnd(h, status, verb, start, body) == Some(end)
                <==> end >= start && EndsAt(StandardLength(h, status, verb), body, end - start)
      {
        EndAgrees(h, status, verb, start, body, end);
      }
    } else if StopsAsStandard(h, status, verb, start) {
      EndDisagrees(h, status, verb, start);
    } else {
      StopsExactly(h, status, verb, start);
      if AgreesOnEnd(h, status, verb, start) {
        EndsGiveCompleteness(h, status, verb, start);
      }
    }
  }

  // ----- the same of whole responses -----

  /** For every body behind this head, the stop test accepts exactly the complete responses. */
  ghost predicate StopsRight(head: string, verb: string)
    requires HasGoodLength(HeadFields(head, Trim))
  {
    var length := StandardLength(HeadFields(head, Trim), HeadStatus(head), verb);
    forall body: string | |head| + 4 + |body| < SIZE_MODULUS ::
      HasCompleteResponse(Message(head, body), verb, false) <==> IsComplete(length, body)
  }

  /** StopsExactly for the stop test on the received bytes. */
  lemma ResponseStopsExactly(head: string, verb: string)
    requires IsMessageHead(head) && HasGoodLength(HeadFields(head, Trim)) && |head| + 20 < SIZE_MODULUS
    ensures StopsRight(head, verb)
            <==> StopsAsStandard(HeadFields(head, Trim), HeadStatus(head), verb, |head| + 4)
  {
    hide HeadFields;
    hide HeadStatus;
    hide HasCompleteResponse;
    hide StandardLength;
    hide CodeEnd;
    hide IsComplete;
    hide StopsAsStandard;
    hide IsMessageHead;
    hide HasGoodLength;
    hide StopEnd;
    var h, status := HeadFields(head, Trim), HeadStatus(head);
    StopsExactly(h, status, verb, |head| + 4);
    forall body: string | |head| + 4 + |body| < SIZE_MODULUS
      ensures HasCompleteResponse(Message(head, body), verb, false)
              <==> CodeEnd(h, status, verb, |head| + 4, body).Some?
    {
      StopIs(head, body, verb);
    }
  }

  /** A length of 0 without "close" is never complete, not even at the end of the stream. */
  lemma ZeroLengthIsNeverComplete(head: string, body: string, verb: string, eof: bool)
    requires IsMessageHead(head)
    requires var h := HeadFields(head, Trim);
             && Get(h, "Content-Length").Some? && ContentLength(h) == 0 && !MentionsChunked(h) && !ConnectionClose(h)
    requires !IsHead(verb) && !StatusHasNoBody(HeadStatus(head))
    ensures !HasCompleteResponse(Message(head, body), verb, eof)
  {
    StopIs(head, body, verb);
    hide HeadFields;
    hide HeadStatus;
    hide ContentLength;
    hide HeaderMentions;
    hide IsMessageHead;
    hide StopEnd;
    MessageParts(head, body);
    GetCleansHead(head, "Content-Length", Trim);
    GetCleansHead(head, "Content-Length", DropOneSpace);
  }
}
