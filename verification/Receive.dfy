/** The receive loop of http1_adapter.cpp: the stop test, its agreement with the parser, and the
    independence of the result from how the transport split the bytes. */
module Receive {
  import opened Text
  import opened Numbers
  import opened HeaderMap
  import opened Chunked
  import opened Http1

  // ----- has_complete_response -----

  function DropOneSpace(value: string): string {
    if value != "" && value[0] == ' ' then value[1..] else value
  }

  /** The body end as the stop test computes it. */
  function StopEnd(raw: string, headEnd: nat, verb: string): Option<nat>
    requires headEnd <= |raw|
  {
    BodyEnd(raw, headEnd, HeadFields(raw[..headEnd], DropOneSpace), HeadStatus(raw[..headEnd]), verb)
  }

  predicate HasCompleteResponse(raw: string, verb: string, eof: bool) {
    var headEnd := HeadEnd(raw);
    headEnd.Some? &&
    (|| StopEnd(raw, headEnd.value, verb).Some?
     || var h := HeadFields(raw[..headEnd.value], DropOneSpace);
        eof && !MentionsChunked(h) && Get(h, "Content-Length").None?)
  }

  // ----- the two header parsers agree on everything that frames a body -----

  /** Looking a field up commutes with cleaning its value. */
  lemma {:induction false} GetCleans(lines: seq<string>, key: string, clean: string -> string)
    ensures Get(Fields(lines, clean), key) ==
            match Get(Fields(lines, v => v), key) case None => None case Some(v) => Some(clean(v))
  {
    hide ToLower;
    if lines != [] {
      GetCleans(lines[..|lines| - 1], key, clean);
    }
  }

  lemma GetCleansHead(head: string, key: string, clean: string -> string)
    ensures Get(HeadFields(head, clean), key) ==
            match Get(HeadFields(head, v => v), key) case None => None case Some(v) => Some(clean(v))
  {
    hide Lines;
    if Lines(head) != [] {
      GetCleans(Lines(head)[1..], key, clean);
    }
  }

  /** `t` is `w` without some white space around it. */
  ghost predicate IsCoreOf(t: string, w: string) {
    exists a: string, b: string :: AllSpace(a) && AllSpace(b) && w == a + t + b
  }

  lemma TrimIsCore(w: string)
    ensures IsCoreOf(Trim(w), w)
  {
    var a := TrimLeftCuts(w);
    var b := TrimRightCuts(TrimLeft(w));
    assert w == a + Trim(w) + b;
  }

  lemma DropOneSpaceIsCore(w: string)
    ensures IsCoreOf(DropOneSpace(w), w)
  {
    var a: string, b: string := if w != "" && w[0] == ' ' then " " else "", "";
    assert AllSpace(a) && AllSpace(b);
    assert w == a + DropOneSpace(w) + b;
  }

  lemma LowerAllSpace(a: string)
    requires AllSpace(a)
    ensures AllSpace(ToLower(a))
  {
    forall c | c in ToLower(a)
      ensures IsSpace(c)
    {
      var i :| 0 <= i < |a| && ToLower(a)[i] == c;
      assert a[i] in a;
    }
  }

  lemma CoreMentions(t: string, w: string, word: string)
    requires IsCoreOf(t, w)
    requires word != "" && !IsSpace(word[0]) && !IsSpace(word[|word| - 1])
    ensures Contains(ToLower(t), word) <==> Contains(ToLower(w), word)
  {
    var a: string, b: string :| AllSpace(a) && AllSpace(b) && w == a + t + b;
    LowerAllSpace(a);
    LowerAllSpace(b);
    ToLowerConcat(a + t, b);
    ToLowerConcat(a, t);
    ContainsIgnoresOuterSpace(ToLower(a), ToLower(t), ToLower(b), word);
  }

  lemma CoreParses(t: string, w: string)
    requires IsCoreOf(t, w)
    ensures ParseUnsigned(t, 10) == ParseUnsigned(w, 10)
  {
    var a: string, b: string :| AllSpace(a) && AllSpace(b) && w == a + t + b;
    assert w == a + (t + b);
    TrimLeftSkips(a, t + b);
    NumeralOfTrimmed(t + b);
    NumeralOfTrimmed(w);
    var c := TrimLeftCuts(t);
    if TrimLeft(t) == "" {
      assert t == c && t + b == (c + b) + "";
      TrimLeftSkips(c + b, "");
    } else {
      assert t + b == c + (TrimLeft(t) + b);
      TrimLeftSkips(c, TrimLeft(t) + b);
      assert TrimLeft(TrimLeft(t) + b) == TrimLeft(t) + b;
      NumeralIgnoresTail(TrimLeft(t), b, 10);
    }
    NumeralOfTrimmed(t);
  }

  lemma NumeralOfTrimmed(s: string)
    ensures Numeral(s, 10) == Numeral(TrimLeft(s), 10)
  {
    var a := TrimLeftCuts(s);
    assert TrimLeft(TrimLeft(s)) == TrimLeft(s);
  }

  /** The fields that decide where a body ends. */
  ghost predicate SameFraming(g: Headers, h: Headers) {
    && (MentionsChunked(g) <==> MentionsChunked(h))
    && ContentLength(g) == ContentLength(h)
    && (ConnectionClose(g) <==> ConnectionClose(h))
  }

  lemma CleaningKeepsMention(head: string, name: string, word: string)
    requires word != "" && !IsSpace(word[0]) && !IsSpace(word[|word| - 1])
    ensures HeaderMentions(HeadFields(head, Trim), name, word) <==>
            HeaderMentions(HeadFields(head, DropOneSpace), name, word)
  {
    hide HeadFields;
    hide Trim;
    hide DropOneSpace;
    hide Contains;
    hide IsCoreOf;
    GetCleansHead(head, name, Trim);
    GetCleansHead(head, name, DropOneSpace);
    var v := Get(HeadFields(head, v => v), name);
    if v.Some? {
      TrimIsCore(v.value);
      DropOneSpaceIsCore(v.value);
      CoreMentions(Trim(v.value), v.value, word);
      CoreMentions(DropOneSpace(v.value), v.value, word);
    }
  }

  lemma CleaningKeepsFraming(head: string)
    ensures SameFraming(HeadFields(head, Trim), HeadFields(head, DropOneSpace))
  {
    hide HeadFields;
    hide Trim;
    hide DropOneSpace;
    hide Contains;
    hide IsCoreOf;
    hide ParseUnsigned;
    CleaningKeepsMention(head, "Transfer-Encoding", "chunked");
    CleaningKeepsMention(head, "Connection", "close");
    GetCleansHead(head, "Content-Length", Trim);
    GetCleansHead(head, "Content-Length", DropOneSpace);
    var v := Get(HeadFields(head, v => v), "Content-Length");
    if v.Some? {
      TrimIsCore(v.value);
      DropOneSpaceIsCore(v.value);
      CoreParses(Trim(v.value), v.value);
      CoreParses(DropOneSpace(v.value), v.value);
    }
  }

  /** The stop test and the parser place the body end at the same byte, for every input and every method
      but HEAD, which the parser is not told about. */
  lemma StopTestAgreesWithParser(raw: string, verb: string)
    requires !IsHead(verb) && HeadEnd(raw).Some?
    ensures StopEnd(raw, HeadEnd(raw).value, verb) == ParserEnd(raw, HeadEnd(raw).value)
    ensures HasCompleteResponse(raw, verb, false) <==> ParserEnd(raw, HeadEnd(raw).value).Some?
  {
    hide HeadFields;
    hide HeadStatus;
    hide ContentLength;
    hide HeaderMentions;
    CleaningKeepsFraming(raw[..HeadEnd(raw).value]);
  }

  // ----- more bytes never move an established body end -----

  /** The head alone tells where the body ends: by its status, by the chunked coding, or by a length
      whose end is representable. */
  ghost predicate Delimited(raw: string, headEnd: nat)
    requires headEnd <= |raw|
  {
    var h := HeadFields(raw[..headEnd], Trim);
    || StatusHasNoBody(HeadStatus(raw[..headEnd]))
    || MentionsChunked(h)
    || 0 < ContentLength(h) < SIZE_MODULUS - (headEnd + 4)
  }

  lemma HeadStable(raw: string, more: string)
    requires HeadEnd(raw).Some?
    ensures HeadEnd(raw + more) == HeadEnd(raw)
    ensures HeadEnd(raw).value + 4 <= |raw|
    ensures (raw + more)[..HeadEnd(raw).value] == raw[..HeadEnd(raw).value]
  {
    FindStable(raw, more, HEAD_END, 0);
  }

  lemma {:induction false} EndStable(raw: string, more: string)
    requires HeadEnd(raw).Some? && Delimited(raw, HeadEnd(raw).value)
    requires ParserEnd(raw, HeadEnd(raw).value).Some?
    ensures HeadEnd(raw + more) == HeadEnd(raw)
    ensures ParserEnd(raw + more, HeadEnd(raw).value) == ParserEnd(raw, HeadEnd(raw).value)
    ensures HeadEnd(raw).value + 4 <= ParserEnd(raw, HeadEnd(raw).value).value <= |raw|
  {
    hide HeadFields;
    hide HeadStatus;
    hide ContentLength;
    hide HeaderMentions;
    HeadStable(raw, more);
    var start := HeadEnd(raw).value + 4;
    if Find(raw, TERMINATOR, start).Some? {
      FindStable(raw, more, TERMINATOR, start);
    }
  }

  /** Two responses that differ at most in the raw bytes they were read from. */
  ghost predicate SameMessage(a: Response, b: Response) {
    a.status == b.status && a.headers == b.headers && a.text == b.text
  }

  lemma ViewStable(raw: string, more: string, start: nat, end: nat)
    requires start <= end <= |raw|
    ensures View(raw + more, start, end) == View(raw, start, end)
  {
    var n := (end - start) % SIZE_MODULUS;
    assert n <= end - start;
    assert (raw + more)[start..start + n] == raw[start..start + n];
  }

  lemma {:induction false} ParseStable(raw: string, more: string, inflate: Inflate)
    requires HeadEnd(raw).Some? && Delimited(raw, HeadEnd(raw).value) && HeadEnd(raw).value > 0
    requires ParserEnd(raw, HeadEnd(raw).value).Some?
    ensures SameMessage(Parse(raw + more, inflate), Parse(raw, inflate))
  {
    hide HeadFields;
    hide HeadStatus;
    hide HeaderMentions;
    hide ParserEnd;
    hide View;
    hide Decode;
    hide BodyText;
    HeadStable(raw, more);
    EndStable(raw, more);
    ViewStable(raw, more, HeadEnd(raw).value + 4, ParserEnd(raw, HeadEnd(raw).value).value);
  }

  // ----- the receive loop -----

  /** The bytes read when the loop stops, and whether it stopped at the end of the stream. `chunks` is
      what successive recv_some calls return; an empty chunk, or none left, is the end of the stream. */
  function Received(got: string, chunks: seq<string>, verb: string): (string, bool)
    decreases |chunks|
  {
    if chunks == [] || chunks[0] == "" then (got, true)
    else
      var now := got + chunks[0];
      if HasCompleteResponse(now, verb, false) then (now, false) else Received(now, chunks[1..], verb)
  }

  /** The loop of Http1Adapter::send. */
  method ReceiveResponse(chunks: seq<string>, verb: string) returns (raw: string, eof: bool)
    ensures (raw, eof) == Received("", chunks, verb)
  {
    hide HasCompleteResponse;
    raw, eof := "", false;
    var i := 0;
    assert chunks[0..] == chunks;
    while true
      invariant i <= |chunks|
      invariant !eof && Received("", chunks, verb) == Received(raw, chunks[i..], verb)
      decreases |chunks| - i
    {
      var chunk := if i < |chunks| then chunks[i] else "";
      if chunk == "" {
        eof := true;
        break;
      }
      assert chunks[i..][1..] == chunks[i + 1..];
      raw := raw + chunk;
      i := i + 1;
      if HasCompleteResponse(raw, verb, false) { break; }
    }
  }

  ghost predicate NonEmptyChunks(chunks: seq<string>) {
    "" !in chunks
  }

  /** The stream is complete and its body is delimited by its head. */
  ghost predicate DelimitedMessage(stream: string, verb: string) {
    && !IsHead(verb)
    && HasCompleteResponse(stream, verb, false)
    && Delimited(stream, HeadEnd(stream).value)
  }

  /** Whatever the loop stops on is a prefix of the stream that the stop test accepts. */
  lemma {:induction false} ReceivedIsCompletePrefix(got: string, chunks: seq<string>, verb: string)
    requires NonEmptyChunks(chunks) && HasCompleteResponse(got + Concat(chunks), verb, false)
    requires chunks != []
    ensures var (raw, eof) := Received(got, chunks, verb);
            && !eof && got <= raw <= got + Concat(chunks)
            && HasCompleteResponse(raw, verb, false)
    decreases |chunks|
  {
    hide HasCompleteResponse;
    var now := got + chunks[0];
    assert chunks[0] in chunks;
    assert got + Concat(chunks) == now + Concat(chunks[1..]);
    if !HasCompleteResponse(now, verb, false) {
      assert now + "" == now;
      assert "" !in chunks[1..];
      ReceivedIsCompletePrefix(now, chunks[1..], verb);
    }
  }

  lemma PrefixKeepsDelimited(raw: string, stream: string, verb: string)
    requires raw <= stream && DelimitedMessage(stream, verb)
    requires HasCompleteResponse(raw, verb, false)
    ensures DelimitedMessage(raw, verb)
  {
    assert stream == raw + stream[|raw|..];
    HeadStable(raw, stream[|raw|..]);
  }

  /** Segmentation independence: however the transport splits a delimited message (and whatever follows it)
      into non-empty chunks, the loop stops by itself and the parsed response is that of the whole stream. */
  lemma SegmentationIndependence(chunks: seq<string>, verb: string, inflate: Inflate)
    requires NonEmptyChunks(chunks) && DelimitedMessage(Concat(chunks), verb)
    ensures var (raw, eof) := Received("", chunks, verb);
            && !eof && raw <= Concat(chunks)
            && SameMessage(Parse(raw, inflate), Parse(Concat(chunks), inflate))
  {
    hide HasCompleteResponse;
    hide Parse;
    var stream := Concat(chunks);
    assert "" + stream == stream;
    assert chunks != [] by {
      assert Find("", HEAD_END, 0).None?;
      assert !HasCompleteResponse("", verb, false) by {
        NothingIsIncomplete(verb);
      }
    }
    ReceivedIsCompletePrefix("", chunks, verb);
    var raw := Received("", chunks, verb).0;
    PrefixKeepsDelimited(raw, stream, verb);
    CompleteMeansParserEnd(raw, verb);
    assert stream == raw + stream[|raw|..];
    ParseStable(raw, stream[|raw|..], inflate);
  }

  lemma NothingIsIncomplete(verb: string)
    ensures !HasCompleteResponse("", verb, false)
  {
  }

  lemma CompleteMeansParserEnd(raw: string, verb: string)
    requires !IsHead(verb) && HasCompleteResponse(raw, verb, false)
    ensures HeadEnd(raw).Some? && HeadEnd(raw).value > 0 && ParserEnd(raw, HeadEnd(raw).value).Some?
  {
    StopTestAgreesWithParser(raw, verb);
    if HeadEnd(raw) == Some(0) {
      EmptyHeadHasNoEnd(raw);
    }
  }

  lemma EmptyHeadHasNoEnd(raw: string)
    ensures ParserEnd(raw, 0).None?
  {
    assert raw[..0] == "" && Lines("") == [];
    assert HeadFields("", Trim) == map[] && HeadStatus("") == 0 by {
      assert DropWord(TrimLeft("")) == "";
    }
    assert !IsHead("");
  }

  // ----- and exactly which complete responses are independent of the split -----

  /** Cut right behind the head, a response that its head does not delimit is taken as complete there. */
  lemma UndelimitedStopsAtHead(stream: string, verb: string)
    requires !IsHead(verb) && HasCompleteResponse(stream, verb, false)
    requires !Delimited(stream, HeadEnd(stream).value)
    ensures var start := HeadEnd(stream).value + 4;
            start <= |stream| && HasCompleteResponse(stream[..start], verb, false)
  {
    hide HeadFields;
    hide HeadStatus;
    hide ContentLength;
    hide HeaderMentions;
    var k := HeadEnd(stream).value;
    var now := stream[..k + 4];
    StopTestAgreesWithParser(stream, verb);
    HeadOfCut(stream);
    StopTestAgreesWithParser(now, verb);
    assert now[..k] == stream[..k];
  }

  lemma HeadOfCut(stream: string)
    requires HeadEnd(stream).Some?
    ensures HeadEnd(stream).value + 4 <= |stream|
    ensures HeadEnd(stream[..HeadEnd(stream).value + 4]) == HeadEnd(stream)
  {
    var k := HeadEnd(stream).value;
    var now, rest := stream[..k + 4], stream[k + 4..];
    assert stream == now + rest;
    OccursAtAppend(now, rest, HEAD_END, k);
    forall j | 0 <= j < k
      ensures !OccursAt(now, HEAD_END, j)
    {
      OccursAtAppend(now, rest, HEAD_END, j);
    }
    FindIs(now, HEAD_END, 0, k);
  }

  /** The bytes that the parser takes for the body behind a complete head. */
  lemma LengthView(raw: string, start: nat, n: nat)
    requires start <= |raw| < SIZE_MODULUS && 0 < n < SIZE_MODULUS && |raw| >= (start + n) % SIZE_MODULUS
    ensures View(raw, start, (start + n) % SIZE_MODULUS) ==
            if n <= |raw| - start then raw[start..start + n] else raw[start..]
  {
    if start + n < SIZE_MODULUS {
      SmallModulo(start + n, SIZE_MODULUS);
      SmallModulo(n, SIZE_MODULUS);
    } else {
      var end := start + n - SIZE_MODULUS;
      assert start + n == SIZE_MODULUS + end;
      assert (start + n) % SIZE_MODULUS == end;
      assert (end - start) % SIZE_MODULUS == n;
    }
  }

  lemma EmptyView(raw: string, start: nat)
    requires start <= |raw|
    ensures View(raw, start, start) == ""
  {
  }

  lemma WholeView(raw: string, start: nat)
    requires start <= |raw| < SIZE_MODULUS
    ensures View(raw, start, |raw|) == raw[start..]
  {
    SmallModulo(|raw| - start, SIZE_MODULUS);
  }

  /** Without a content coding, the text of an undelimited complete response is all that was received. */
  lemma UndelimitedText(raw: string, verb: string, inflate: Inflate)
    requires |raw| < SIZE_MODULUS
    requires !IsHead(verb) && HasCompleteResponse(raw, verb, false)
    requires !Delimited(raw, HeadEnd(raw).value)
    requires Get(HeadFields(raw[..HeadEnd(raw).value], Trim), "Content-Encoding").None?
    ensures HeadEnd(raw).value + 4 <= |raw| && Parse(raw, inflate).text == raw[HeadEnd(raw).value + 4..]
  {
    hide HeadFields;
    hide HeadStatus;
    hide ContentLength;
    hide HeaderMentions;
    hide HasCompleteResponse;
    hide View;
    CompleteMeansParserEnd(raw, verb);
    HeadStable(raw, "");
    var start := HeadEnd(raw).value + 4;
    var n := ContentLength(HeadFields(raw[..start - 4], Trim));
    WholeView(raw, start);
    if n > 0 {
      LengthView(raw, start, n);
    }
  }

  /** The response does not depend on how the stream is split into chunks. */
  ghost predicate SplitIndependent(stream: string, verb: string, inflate: Inflate) {
    forall chunks | NonEmptyChunks(chunks) && Concat(chunks) == stream ::
      SameMessage(Parse(Received("", chunks, verb).0, inflate), Parse(stream, inflate))
  }

  lemma BodilessReadsWhole(chunks: seq<string>, verb: string)
    requires NonEmptyChunks(chunks) && !IsHead(verb) && HasCompleteResponse(Concat(chunks), verb, false)
    requires |Concat(chunks)| == HeadEnd(Concat(chunks)).value + 4
    ensures Received("", chunks, verb) == (Concat(chunks), false)
  {
    hide HasCompleteResponse;
    hide HeadEnd;
    hide ParserEnd;
    hide Received;
    var stream := Concat(chunks);
    assert "" + stream == stream;
    if chunks == [] {
      NothingIsIncomplete(verb);
    }
    ReceivedIsCompletePrefix("", chunks, verb);
    var raw := Received("", chunks, verb).0;
    CompleteMeansParserEnd(raw, verb);
    assert stream == raw + stream[|raw|..];
    HeadStable(raw, stream[|raw|..]);
    assert |raw| == |stream|;
    assert raw == stream;
  }

  lemma UndelimitedDependsOnSplit(stream: string, verb: string, inflate: Inflate)
    requires |stream| < SIZE_MODULUS
    requires !IsHead(verb) && HasCompleteResponse(stream, verb, false)
    requires Get(HeadFields(stream[..HeadEnd(stream).value], Trim), "Content-Encoding").None?
    requires !Delimited(stream, HeadEnd(stream).value) && |stream| != HeadEnd(stream).value + 4
    ensures !SplitIndependent(stream, verb, inflate)
  {
    hide HeadFields;
    hide Parse;
    hide HasCompleteResponse;
    hide Delimited;
    hide HeadEnd;
    hide ParserEnd;
    CompleteMeansParserEnd(stream, verb);
    HeadStable(stream, "");
    var start := HeadEnd(stream).value + 4;
    var now, rest := stream[..start], stream[start..];
    UndelimitedStopsAtHead(stream, verb);
    ConcatPair(now, rest);
    assert now + rest == stream && "" + now == now;
    assert Received("", [now, rest], verb) == (now, false);
    HeadOfCut(stream);
    assert now[..start - 4] == stream[..start - 4];
    SameHeadSameDelimiting(now, stream, start - 4);
    UndelimitedText(now, verb, inflate);
    UndelimitedText(stream, verb, inflate);
    assert now[start..] == "";
    assert !SameMessage(Parse(now, inflate), Parse(stream, inflate));
    assert NonEmptyChunks([now, rest]);
  }

  /** More bytes never make a complete response incomplete. */
  lemma {:induction false} CompleteStays(raw: string, more: string, verb: string)
    requires !IsHead(verb) && HasCompleteResponse(raw, verb, false)
    ensures HasCompleteResponse(raw + more, verb, false)
  {
    hide HeadFields;
    hide HeadStatus;
    hide ContentLength;
    hide HeaderMentions;
    CompleteMeansParserEnd(raw, verb);
    HeadStable(raw, more);
    var start := HeadEnd(raw).value + 4;
    if Find(raw, TERMINATOR, start).Some? {
      FindStable(raw, more, TERMINATOR, start);
    }
    StopTestAgreesWithParser(raw, verb);
    StopTestAgreesWithParser(raw + more, verb);
  }

  /** A stream that never becomes complete is read to its end. */
  lemma {:induction false} IncompleteReadsWhole(got: string, chunks: seq<string>, verb: string)
    requires NonEmptyChunks(chunks) && !IsHead(verb) && !HasCompleteResponse(got + Concat(chunks), verb, false)
    ensures Received(got, chunks, verb) == (got + Concat(chunks), true)
    decreases |chunks|
  {
    hide HasCompleteResponse;
    if chunks == [] {
      assert got + "" == got;
    } else {
      var now, rest := got + chunks[0], chunks[1..];
      assert now + Concat(rest) == got + Concat(chunks);
      if HasCompleteResponse(now, verb, false) {
        CompleteStays(now, Concat(rest), verb);
      } else {
        assert forall c :: c in rest ==> c in chunks;
        IncompleteReadsWhole(now, rest, verb);
      }
    }
  }

  /** A stream without content coding reads the same under every split exactly when it is never complete, its
      head delimits the body, or there is no body at all. */
  lemma SegmentationExactly(stream: string, verb: string, inflate: Inflate)
    requires |stream| < SIZE_MODULUS && !IsHead(verb)
    requires HeadEnd(stream).Some? ==> Get(HeadFields(stream[..HeadEnd(stream).value], Trim), "Content-Encoding").None?
    ensures SplitIndependent(stream, verb, inflate) <==>
            || !HasCompleteResponse(stream, verb, false)
            || Delimited(stream, HeadEnd(stream).value)
            || |stream| == HeadEnd(stream).value + 4
  {
    hide HeadFields;
    hide Parse;
    hide HasCompleteResponse;
    hide Delimited;
    if !HasCompleteResponse(stream, verb, false) {
      forall chunks | NonEmptyChunks(chunks) && Concat(chunks) == stream
        ensures SameMessage(Parse(Received("", chunks, verb).0, inflate), Parse(stream, inflate))
      {
        assert "" + stream == stream;
        IncompleteReadsWhole("", chunks, verb);
      }
    } else {
      CompleteMeansParserEnd(stream, verb);
      CompleteSegmentation(stream, verb, inflate);
    }
  }

  lemma CompleteSegmentation(stream: string, verb: string, inflate: Inflate)
    requires |stream| < SIZE_MODULUS
    requires !IsHead(verb) && HasCompleteResponse(stream, verb, false)
    requires Get(HeadFields(stream[..HeadEnd(stream).value], Trim), "Content-Encoding").None?
    ensures SplitIndependent(stream, verb, inflate)
            <==> Delimited(stream, HeadEnd(stream).value) || |stream| == HeadEnd(stream).value + 4
  {
    hide HeadFields;
    hide Parse;
    hide HasCompleteResponse;
    hide Delimited;
    CompleteMeansParserEnd(stream, verb);
    if Delimited(stream, HeadEnd(stream).value) {
      forall chunks | NonEmptyChunks(chunks) && Concat(chunks) == stream
        ensures SameMessage(Parse(Received("", chunks, verb).0, inflate), Parse(stream, inflate))
      {
        SegmentationIndependence(chunks, verb, inflate);
      }
    } else if |stream| == HeadEnd(stream).value + 4 {
      forall chunks | NonEmptyChunks(chunks) && Concat(chunks) == stream
        ensures SameMessage(Parse(Received("", chunks, verb).0, inflate), Parse(stream, inflate))
      {
        BodilessReadsWhole(chunks, verb);
      }
    } else {
      UndelimitedDependsOnSplit(stream, verb, inflate);
    }
  }

  lemma SameHeadSameDelimiting(a: string, b: string, headEnd: nat)
    requires headEnd <= |a| && headEnd <= |b| && a[..headEnd] == b[..headEnd]
    ensures Delimited(a, headEnd) <==> Delimited(b, headEnd)
  {
  }

  /** Two receptions of the same stream give the same response. */
  lemma {:induction false} AnyTwoSplitsAgree(chunks: seq<string>, others: seq<string>, verb: string, inflate: Inflate)
    requires NonEmptyChunks(chunks) && NonEmptyChunks(others) && Concat(chunks) == Concat(others)
    requires DelimitedMessage(Concat(chunks), verb)
    ensures SameMessage(Parse(Received("", chunks, verb).0, inflate), Parse(Received("", others, verb).0, inflate))
  {
    SegmentationIndependence(chunks, verb, inflate);
    SegmentationIndependence(others, verb, inflate);
  }
}
