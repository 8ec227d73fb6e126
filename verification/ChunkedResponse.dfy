/** parse_response on chunked messages: the body end is found by searching for the terminator, which may stand
    inside chunk data, or nowhere. What comes out of every well-formed chunked body. */
module ChunkedResponse {
  import opened Text
  import opened Numbers
  import opened HeaderMap
  import opened Chunked
  import opened Http1
  import opened Receive

  // ----- the shape of an encoded body -----

  lemma {:induction false} EncodeChunksAppends(chunks: seq<Chunk>, rest: string)
    ensures EncodeChunks(chunks, rest) == EncodeChunks(chunks, "") + rest
  {
    if chunks != [] {
      EncodeChunksAppends(chunks[1..], rest);
      var line := chunks[0].size + chunks[0].extension;
      LineAppends(chunks[0].data, EncodeChunks(chunks[1..], ""), rest);
      LineAppends(line, Line(chunks[0].data, EncodeChunks(chunks[1..], "")), rest);
    }
  }

  lemma LineAppends(text: string, middle: string, rest: string)
    ensures Line(text, middle + rest) == Line(text, middle) + rest
  {
  }

  function SizeLine(c: Chunk): string {
    c.size + c.extension
  }

  lemma SizeLineShape(c: Chunk, n: nat)
    requires Announces(c.size, c.extension, n)
    ensures SizeLine(c) != "" && '\r' !in SizeLine(c) && SizeLine(c)[0] != '\n'
  {
    ParseAnnounced(c.size, c.extension, n);
    assert SizeLine(c)[0] == c.size[0] && c.size[0] in c.size;
  }

  /** The characters of a line in front of some text. */
  lemma LineChars(text: string, rest: string)
    ensures var s := Line(text, rest);
            && |s| == |text| + 2 + |rest| && s[|text|] == '\r' && s[|text| + 1] == '\n'
            && (forall i :: 0 <= i < |text| ==> s[i] == text[i])
            && (forall i :: |text| + 2 <= i < |s| ==> s[i] == rest[i - |text| - 2])
  {
  }

  // ----- where the terminator can stand -----

  /** The end of the cut that parse_response makes, behind the first five bytes of the terminator: a line break
      in front of it and one behind it. */
  predicate IsCutAt(s: string, p: nat) {
    2 <= p < |s| && s[p - 2] == '\r' && s[p - 1] == '\n' && s[p] == '\r'
  }

  lemma TerminatorChars(s: string, t: nat)
    ensures OccursAt(s, TERMINATOR, t) <==>
            && t + 7 <= |s| && s[t] == '\r' && s[t + 1] == '\n' && s[t + 2] == '0'
            && s[t + 3] == '\r' && s[t + 4] == '\n' && s[t + 5] == '\r' && s[t + 6] == '\n'
  {
    if t + 7 <= |s| {
      var w := s[t..t + 7];
      assert forall i :: 0 <= i < 7 ==> w[i] == s[t + i];
      assert w == [s[t + 0], s[t + 1], s[t + 2], s[t + 3], s[t + 4], s[t + 5], s[t + 6]];
    }
  }

  lemma CutNotInLine(text: string, rest: string, p: nat)
    requires '\r' !in text && IsCutAt(Line(text, rest), p)
    ensures p >= |text| + 2
  {
    LineChars(text, rest);
    hide Line;
  }

  lemma CutNotBetween(data: string, rest: string, p: nat)
    requires data != "" && IsCutAt(Line(data, rest), p) && p > |data|
    requires rest != "" ==> rest[0] != '\r'
    ensures |data| + 4 <= p < |data| + 2 + |rest| && IsCutAt(rest, p - |data| - 2)
  {
    LineChars(data, rest);
    hide Line;
  }

  /** The size line of a chunk, and what is left of its data. */
  function PartialChunk(c: Chunk, keep: nat): string
    requires keep <= |c.data|
  {
    Line(SizeLine(c), c.data[..keep])
  }

  lemma KeepInData(c: Chunk, rest: string, p: nat)
    requires |SizeLine(c)| + 2 <= p <= |SizeLine(c)| + 2 + |c.data|
    ensures Line(SizeLine(c), Line(c.data, rest))[..p] == PartialChunk(c, p - |SizeLine(c)| - 2)
  {
    LineChars(c.data, rest);
    LineChars(SizeLine(c), Line(c.data, rest));
  }

  lemma ChunkLength(chunks: seq<Chunk>)
    requires chunks != []
    ensures |EncodeChunks(chunks, "")| == |SizeLine(chunks[0])| + |chunks[0].data| + 4 + |EncodeChunks(chunks[1..], "")|
  {
  }

  /** What follows a chunk does not start with a line break. */
  lemma FirstChar(chunks: seq<Chunk>, rest: string)
    requires ValidChunks(chunks) && chunks != []
    ensures EncodeChunks(chunks, rest) != "" && EncodeChunks(chunks, rest)[0] != '\r'
  {
    var c := chunks[0];
    assert ValidChunk(c);
    SizeLineShape(c, |c.data|);
    assert SizeLine(c)[0] in SizeLine(c);
  }

  lemma FirstChunk(chunks: seq<Chunk>, rest: string)
    requires chunks != []
    ensures EncodeChunks(chunks, rest)
            == Line(SizeLine(chunks[0]), Line(chunks[0].data, EncodeChunks(chunks[1..], rest)))
  {
  }

  lemma CutBehindLine(c: Chunk, more: string, p: nat)
    requires ValidChunk(c) && IsCutAt(Line(SizeLine(c), Line(c.data, more)), p)
    ensures p >= |SizeLine(c)| + 2
    ensures p > |SizeLine(c)| + 2 + |c.data| ==> IsCutAt(Line(c.data, more), p - |SizeLine(c)| - 2)
  {
    SizeLineShape(c, |c.data|);
    CutNotInLine(SizeLine(c), Line(c.data, more), p);
    LineChars(SizeLine(c), Line(c.data, more));
    hide Line;
  }

  lemma PrefixOfLines(line: string, data: string, more: string, q: nat)
    requires q <= |more|
    ensures Line(line, Line(data, more))[..|line| + |data| + 4 + q] == Line(line, Line(data, more[..q]))
  {
    LineAppends(data, more[..q], more[q..]);
    LineAppends(line, Line(data, more[..q]), more[q..]);
    assert more[..q] + more[q..] == more;
  }

  /** A cut in front of the last line break of a chunk list falls into the data of one chunk. */
  lemma {:induction false} LocateCut(chunks: seq<Chunk>, rest: string, p: nat) returns (k: nat, keep: nat)
    requires ValidChunks(chunks)
    requires IsCutAt(EncodeChunks(chunks, rest), p) && p + 2 <= |EncodeChunks(chunks, "")|
    ensures k < |chunks| && keep <= |chunks[k].data|
    ensures EncodeChunks(chunks, rest)[..p] == EncodeChunks(chunks[..k], PartialChunk(chunks[k], keep))
    ensures p + 2 == |EncodeChunks(chunks, "")| <==> k == |chunks| - 1 && keep == |chunks[k].data|
    decreases |chunks|
  {
    hide IsCutAt;
    hide SizeLine;
    hide Line;
    hide PartialChunk;
    assert chunks != [] && ValidChunk(chunks[0]);
    var c, more := chunks[0], EncodeChunks(chunks[1..], rest);
    var line := SizeLine(c);
    var start := |line| + 2;
    FirstChunk(chunks, rest);
    ChunkLength(chunks);
    if |chunks| > 1 {
      FirstChar(chunks[1..], rest);
      ChunkLength(chunks[1..]);
    }
    CutBehindLine(c, more, p);
    if p <= start + |c.data| {
      k, keep := 0, p - start;
      KeepInData(c, more, p);
      assert chunks[..0] == [];
    } else {
      var q := p - start - |c.data| - 2;
      CutNotBetween(c.data, more, p - start);
      k, keep := LocateCut(chunks[1..], rest, q);
      assert chunks[..k + 1][1..] == chunks[1..][..k];
      FirstChunk(chunks[..k + 1], PartialChunk(chunks[k + 1], keep));
      PrefixOfLines(line, c.data, more, q);
      k := k + 1;
    }
  }

  /** Where the terminator stands in chunks followed by other text: inside them, across their end, or behind. */
  lemma TerminatorPlaces(front: string, tail: string, t: nat)
    requires OccursAt(front + tail, TERMINATOR, t)
    requires tail != "" && tail[0] != '\r'
    requires front != "" ==> |front| >= 2 && front[|front| - 2..] == CRLF
    ensures t + 7 <= |front| || t >= |front| || (t + 2 == |front| && |tail| >= 5 && tail[..5] == "0\r\n\r\n")
  {
    var s, n := front + tail, |front|;
    TerminatorChars(s, t);
    hide OccursAt;
    if t < n < t + 7 {
      assert front[n - 2..][0] == front[n - 2] == s[n - 2] && front[n - 2..][1] == front[n - 1] == s[n - 1];
      assert s[n] == tail[0];
      if t + 2 == n {
        assert forall i :: 0 <= i < 5 ==> tail[i] == s[n + i];
      }
    }
  }

  lemma {:induction false} ChunksEnd(chunks: seq<Chunk>)
    requires chunks != []
    ensures var s := EncodeChunks(chunks, ""); |s| >= 2 && s[|s| - 2..] == CRLF
  {
    var rest := EncodeChunks(chunks[1..], "");
    FirstChunk(chunks, "");
    ChunkLength(chunks);
    LineChars(chunks[0].data, rest);
    LineChars(SizeLine(chunks[0]), Line(chunks[0].data, rest));
    if |chunks| > 1 {
      ChunksEnd(chunks[1..]);
      hide EncodeChunks;
      hide Line;
      var s := EncodeChunks(chunks, "");
      assert s[|s| - 2..] == rest[|rest| - 2..];
    }
  }

  /** What follows the last-chunk line. */
  function TrailerSection(trailers: seq<Trailer>): string {
    EncodeTrailers(trailers, Line("", ""))
  }

  lemma TrailerLineShape(t: Trailer)
    requires '\r' !in t.name && '\r' !in t.value
    ensures var line := t.name + ":" + t.value; line != "" && '\r' !in line && line != "0"
  {
    var line := t.name + ":" + t.value;
    assert line[|t.name|] == ':';
  }

  lemma NotZeroLine(line: string, rest: string)
    requires line != "" && '\r' !in line && line != "0"
    ensures !("0\r" <= Line(line, rest))
  {
    LineChars(line, rest);
    hide Line;
    if |line| == 1 {
      assert line == [line[0]];
    } else {
      assert line[1] in line;
    }
  }

  lemma SectionStart(trailers: seq<Trailer>)
    requires ValidTrailers(trailers)
    ensures TrailerSection(trailers) != ""
    ensures TrailerSection(trailers)[0] == '\r' <==> trailers == []
    ensures !("0\r" <= TrailerSection(trailers))
  {
    if trailers != [] {
      var line := trailers[0].name + ":" + trailers[0].value;
      TrailerLineShape(trailers[0]);
      LineChars(line, TrailerSection(trailers[1..]));
      var s := TrailerSection(trailers);
      assert s == Line(line, TrailerSection(trailers[1..]));
      assert s[0] == line[0] && line[0] in line;
      NotZeroLine(line, TrailerSection(trailers[1..]));
    }
  }

  lemma TerminatorBehindLine(line: string, rest: string, t: nat)
    requires '\r' !in line && OccursAt(Line(line, rest), TERMINATOR, t)
    ensures (t == |line| && "0\r" <= rest) || (t >= |line| + 2 && OccursAt(rest, TERMINATOR, t - |line| - 2))
  {
    LineChars(line, rest);
    TerminatorChars(Line(line, rest), t);
    hide Line;
    hide OccursAt;
    if t >= |line| + 2 {
      TerminatorChars(rest, t - |line| - 2);
    }
  }

  /** No terminator stands behind the chunks: a line "0" there is not followed by an empty line. */
  lemma {:induction false} NoTerminatorInLines(line: string, trailers: seq<Trailer>, t: nat)
    requires line != "" && '\r' !in line && ValidTrailers(trailers)
    ensures !OccursAt(Line(line, TrailerSection(trailers)), TERMINATOR, t)
    decreases |trailers|
  {
    var rest := TrailerSection(trailers);
    SectionStart(trailers);
    if OccursAt(Line(line, rest), TERMINATOR, t) {
      TerminatorBehindLine(line, rest, t);
      if trailers != [] {
        TrailerLineShape(trailers[0]);
        NoTerminatorInLines(trailers[0].name + ":" + trailers[0].value, trailers[1..], t - |line| - 2);
      }
    }
  }

  /** Nothing but the plain last chunk "0" follows the chunks, and there are some. */
  predicate EndsPlainly(chunks: seq<Chunk>, last: Chunk, trailers: seq<Trailer>) {
    chunks != [] && SizeLine(last) == "0" && trailers == []
  }

  lemma BodyIs(chunks: seq<Chunk>, last: Chunk, trailers: seq<Trailer>)
    ensures Encode(chunks, last, trailers, "")
            == EncodeChunks(chunks, "") + Line(SizeLine(last), TrailerSection(trailers))
  {
    EncodeChunksAppends(chunks, Line(SizeLine(last), TrailerSection(trailers)));
  }

  lemma SecondChar(line: string, rest: string)
    requires '\r' !in line && |line| > 1
    ensures Line(line, rest)[1] != '\r'
  {
    LineChars(line, rest);
    assert line[1] in line;
  }

  lemma PlainTail(last: Chunk, trailers: seq<Trailer>)
    requires ValidLast(last) && ValidTrailers(trailers)
    ensures var tail := Line(SizeLine(last), TrailerSection(trailers));
            tail != "" && tail[0] != '\r' &&
              (|tail| >= 5 && tail[..5] == "0\r\n\r\n" <==> SizeLine(last) == "0" && trailers == [])
  {
    var line, rest := SizeLine(last), TrailerSection(trailers);
    SizeLineShape(last, 0);
    SectionStart(trailers);
    LineChars(line, rest);
    assert line[0] in line;
    var tail := Line(line, rest);
    if |tail| >= 5 && tail[..5] == "0\r\n\r\n" {
      assert tail[..5][0] == tail[0] && tail[..5][1] == tail[1] && tail[..5][3] == tail[3];
      if |line| > 1 {
        SecondChar(line, rest);
      } else {
        assert line == [line[0]];
      }
    }
  }

  /** Where any terminator of a chunked body stands: in the chunks, or at the real end, if that is plain. */
  lemma AnyTerminator(chunks: seq<Chunk>, last: Chunk, trailers: seq<Trailer>, t: nat)
    requires ValidChunks(chunks) && ValidLast(last) && ValidTrailers(trailers)
    requires OccursAt(Encode(chunks, last, trailers, ""), TERMINATOR, t)
    ensures var front := EncodeChunks(chunks, "");
            OccursAt(front, TERMINATOR, t) || (EndsPlainly(chunks, last, trailers) && t + 2 == |front|)
  {
    hide Encode;
    hide OccursAt;
    hide EncodeChunks;
    hide Line;
    var front, tail := EncodeChunks(chunks, ""), Line(SizeLine(last), TrailerSection(trailers));
    BodyIs(chunks, last, trailers);
    PlainTail(last, trailers);
    if chunks != [] {
      ChunksEnd(chunks);
    } else {
      NoChunks();
    }
    TerminatorPlaces(front, tail, t);
    if t + 7 <= |front| {
      OccursAtAppend(front, tail, TERMINATOR, t);
    } else if t >= |front| {
      OccursAtBehind(front, tail, TERMINATOR, t - |front|);
      SizeLineShape(last, 0);
      NoTerminatorInLines(SizeLine(last), trailers, t - |front|);
    }
  }

  lemma NoChunks()
    ensures EncodeChunks([], "") == ""
  {
  }

  lemma PlainTerminator(chunks: seq<Chunk>, last: Chunk, trailers: seq<Trailer>)
    requires EndsPlainly(chunks, last, trailers)
    ensures |EncodeChunks(chunks, "")| >= 2
    ensures OccursAt(Encode(chunks, last, trailers, ""), TERMINATOR, |EncodeChunks(chunks, "")| - 2)
  {
    hide Encode;
    hide EncodeChunks;
    var front := EncodeChunks(chunks, "");
    var n := |front|;
    BodyIs(chunks, last, trailers);
    ChunksEnd(chunks);
    assert Line("0", Line("", "")) == "0\r\n\r\n";
    assert front + "0\r\n\r\n" == front[..n - 2] + TERMINATOR;
    OccursAtBehind(front[..n - 2], TERMINATOR, TERMINATOR, 0);
  }

  /** The first terminator of a chunked body is the first one in the chunks, or else the real end, if that is
      written plainly. */
  lemma FirstTerminator(chunks: seq<Chunk>, last: Chunk, trailers: seq<Trailer>)
    requires ValidChunks(chunks) && ValidLast(last) && ValidTrailers(trailers)
    ensures var front := EncodeChunks(chunks, "");
            Find(Encode(chunks, last, trailers, ""), TERMINATOR, 0) ==
            if Contains(front, TERMINATOR) then Find(front, TERMINATOR, 0)
            else if EndsPlainly(chunks, last, trailers) then Some(|front| - 2)
            else None
  {
    hide Encode;
    hide EncodeChunks;
    hide OccursAt;
    hide Find;
    hide EndsPlainly;
    var front, tail := EncodeChunks(chunks, ""), Line(SizeLine(last), TrailerSection(trailers));
    var body := Encode(chunks, last, trailers, "");
    BodyIs(chunks, last, trailers);
    if Contains(front, TERMINATOR) {
      FindStable(front, tail, TERMINATOR, 0);
    } else {
      forall t: nat | OccursAt(body, TERMINATOR, t)
        ensures EndsPlainly(chunks, last, trailers) && t + 2 == |front|
      {
        AnyTerminator(chunks, last, trailers, t);
      }
      if EndsPlainly(chunks, last, trailers) {
        PlainTerminator(chunks, last, trailers);
        FindIs(body, TERMINATOR, 0, |front| - 2);
      }
    }
  }

  // ----- decoding what has been cut out -----

  lemma DecodePartialChunk(c: Chunk, keep: nat)
    requires ValidChunk(c) && keep <= |c.data|
    ensures DecodeChunks(PartialChunk(c, keep)) == if keep == |c.data| then (c.data, "") else ("", c.data[..keep])
  {
    hide ParseChunkSize;
    hide SplitLine;
    ParseAnnounced(c.size, c.extension, |c.data|);
    SplitLineOf(SizeLine(c), c.data[..keep]);
    DecodeChunksUnfolds(PartialChunk(c, keep), |c.data|);
    if keep == |c.data| {
      assert c.data[..keep] == c.data && c.data[|c.data|..] == "";
    }
  }

  /** What the decoder takes for trailers when the cut has left it only part of a chunk's data. */
  function Stray(c: Chunk, keep: nat): Headers
    requires keep <= |c.data|
  {
    if keep == |c.data| then map[] else DecodeTrailers(SkipCrlf(c.data[..keep]), map[])
  }

  /** The payload up to the cut: a chunk that is cut short is lost. */
  function PayloadUpTo(chunks: seq<Chunk>, k: nat, keep: nat): string
    requires k < |chunks|
  {
    Payload(chunks[..k]) + if keep == |chunks[k].data| then chunks[k].data else ""
  }

  lemma NoTrailersInNothing()
    ensures DecodeTrailers(SkipCrlf(""), map[]) == map[]
  {
    assert SplitLine("").None?;
  }

  lemma DecodeCut(chunks: seq<Chunk>, k: nat, keep: nat)
    requires ValidChunks(chunks) && k < |chunks| && keep <= |chunks[k].data|
    ensures Decode(EncodeChunks(chunks[..k], PartialChunk(chunks[k], keep))) ==
            ChunkDecodeResult(PayloadUpTo(chunks, k, keep), Stray(chunks[k], keep))
  {
    hide DecodeChunks;
    hide DecodeTrailers;
    hide EncodeChunks;
    hide PartialChunk;
    assert ValidChunk(chunks[k]) && ValidChunks(chunks[..k]);
    DecodePartialChunk(chunks[k], keep);
    DecodeChunksInverts(chunks[..k], PartialChunk(chunks[k], keep));
    NoTrailersInNothing();
  }

  /** Two bytes short of the full terminator, nothing of the payload is missing. */
  lemma DecodePlain(chunks: seq<Chunk>, last: Chunk)
    requires ValidChunks(chunks) && ValidLast(last)
    ensures Decode(EncodeChunks(chunks, Line(SizeLine(last), ""))) == ChunkDecodeResult(Payload(chunks), map[])
  {
    hide DecodeChunks;
    hide DecodeTrailers;
    hide EncodeChunks;
    hide Line;
    DecodeLastChunk(last, "");
    DecodeChunksInverts(chunks, Line(SizeLine(last), ""));
    assert Payload(chunks) + "" == Payload(chunks);
    NoTrailersInNothing();
  }

  lemma {:induction false} PayloadIsWhole(chunks: seq<Chunk>, k: nat, keep: nat)
    requires ValidChunks(chunks) && k < |chunks| && keep <= |chunks[k].data|
    ensures PayloadUpTo(chunks, k, keep) == Payload(chunks) <==> k == |chunks| - 1 && keep == |chunks[k].data|
    decreases |chunks|
  {
    hide Announces;
    var c, rest := chunks[0], chunks[1..];
    assert ValidChunk(c);
    if k == 0 {
      assert chunks[..0] == [];
      assert rest != [] ==> ValidChunk(rest[0]);
    } else {
      PayloadIsWhole(rest, k - 1, keep);
      assert chunks[..k][1..] == rest[..k - 1];
      var tail := if keep == |chunks[k].data| then chunks[k].data else "";
      assert c.data + (Payload(rest[..k - 1]) + tail) == (c.data + Payload(rest[..k - 1])) + tail;
      SamePrefix(c.data, PayloadUpTo(rest, k - 1, keep), Payload(rest));
    }
  }

  lemma SamePrefix(a: string, b: string, c: string)
    ensures a + b == a + c <==> b == c
  {
    assert (a + b)[|a|..] == b && (a + c)[|a|..] == c;
  }

  // ----- whole messages -----

  /** `head` is the non-empty part of a message in front of the first blank line. */
  ghost predicate IsMessageHead(head: string) {
    head != "" && Find(head + HEAD_END, HEAD_END, 0) == Some(|head|)
  }

  /** A head that announces a chunked body. */
  ghost predicate AnnouncesChunked(head: string) {
    IsMessageHead(head) && !StatusHasNoBody(HeadStatus(head)) && MentionsChunked(HeadFields(head, Trim))
  }

  function Message(head: string, body: string): string {
    head + HEAD_END + body
  }

  lemma MessageParts(head: string, body: string)
    requires IsMessageHead(head)
    ensures var raw := Message(head, body);
            && HeadEnd(raw) == Some(|head|) && raw[..|head|] == head && raw[|head| + 4..] == body
            && Find(raw, TERMINATOR, |head| + 4) ==
               if Find(body, TERMINATOR, 0).None? then None else Some(|head| + 4 + Find(body, TERMINATOR, 0).value)
  {
    hide OccursAt;
    hide Find;
    var front := head + HEAD_END;
    FindStable(front, body, HEAD_END, 0);
    FindBehind(front, body, TERMINATOR);
    assert (front + body)[..|head|] == head && (front + body)[|head| + 4..] == body;
  }

  /** What parse_response makes of a chunked message in which the terminator is found. */
  lemma ParseOfMessage(head: string, body: string, t: nat, inflate: Inflate)
    requires AnnouncesChunked(head) && Find(body, TERMINATOR, 0) == Some(t)
    requires |Message(head, body)| < SIZE_MODULUS
    ensures t + 7 <= |body|
    ensures var h, decoded := HeadFields(head, Trim), Decode(body[..t + 5]);
            var merged := InsertAll(h, decoded.trailers);
            Parse(Message(head, body), inflate) ==
            Response(HeadStatus(head), merged, BodyText(decoded.decoded, merged, true, inflate), Message(head, body))
  {
    hide HeadFields;
    hide HeadStatus;
    hide HeaderMentions;
    hide Decode;
    hide BodyText;
    hide Find;
    var start := |head| + 4;
    var raw := Message(head, body);
    MessageParts(head, body);
    var end := start + t + 5;
    assert IsHead("") == false;
    assert ParserEnd(raw, |head|) == Some(end);
    assert View(raw, start, end) == body[..t + 5] by {
      assert raw[start..end] == body[..end - start];
    }
  }

  /** A chunked body without the terminator is never taken as complete, and its text stays encoded. */
  lemma UnterminatedChunked(head: string, body: string, verb: string, inflate: Inflate)
    requires AnnouncesChunked(head) && !IsHead(verb) && !Contains(body, TERMINATOR)
    ensures !HasCompleteResponse(Message(head, body), verb, true)
    ensures Parse(Message(head, body), inflate) ==
            Response(HeadStatus(head), HeadFields(head, Trim), body, Message(head, body))
  {
    hide HeadFields;
    hide HeadStatus;
    hide HeaderMentions;
    MessageParts(head, body);
    StopTestAgreesWithParser(Message(head, body), verb);
    CleaningKeepsFraming(head);
  }

  /** Where the first terminator in the chunks makes the parser cut. */
  lemma CutOfHit(chunks: seq<Chunk>, last: Chunk, trailers: seq<Trailer>) returns (k: nat, keep: nat)
    requires ValidChunks(chunks) && ValidLast(last) && ValidTrailers(trailers)
    requires Contains(EncodeChunks(chunks, ""), TERMINATOR)
    ensures var body, t := Encode(chunks, last, trailers, ""), Find(EncodeChunks(chunks, ""), TERMINATOR, 0).value;
            && t + 7 <= |EncodeChunks(chunks, "")| && Find(body, TERMINATOR, 0) == Some(t)
            && k < |chunks| && keep <= |chunks[k].data|
            && t + 5 <= |body| && body[..t + 5] == EncodeChunks(chunks[..k], PartialChunk(chunks[k], keep))
            && (t + 7 == |EncodeChunks(chunks, "")| <==> k == |chunks| - 1 && keep == |chunks[k].data|)
  {
    hide EncodeChunks;
    hide Find;
    var front, tail := EncodeChunks(chunks, ""), Line(SizeLine(last), TrailerSection(trailers));
    var t := Find(front, TERMINATOR, 0).value;
    FirstTerminator(chunks, last, trailers);
    BodyIs(chunks, last, trailers);
    OccursAtAppend(front, tail, TERMINATOR, t);
    TerminatorChars(front + tail, t);
    hide OccursAt;
    EncodeChunksAppends(chunks, tail);
    k, keep := LocateCut(chunks, tail, t + 5);
  }

  /** The response made of every well-formed chunked body. With the first terminator inside the chunks, the
      parser cuts `keep` bytes into chunk `k`; a chunk that is cut short is lost, and its first bytes are read
      as trailers and merged into the headers. */
  lemma ChunkedParse(head: string, chunks: seq<Chunk>, last: Chunk, trailers: seq<Trailer>, inflate: Inflate)
    returns (k: nat, keep: nat)
    requires AnnouncesChunked(head) && ValidChunks(chunks) && ValidLast(last) && ValidTrailers(trailers)
    requires |Message(head, Encode(chunks, last, trailers, ""))| < SIZE_MODULUS
    ensures var status, h, body := HeadStatus(head), HeadFields(head, Trim), Encode(chunks, last, trailers, "");
            var raw := Message(head, body);
            match Find(EncodeChunks(chunks, ""), TERMINATOR, 0)
            case Some(t) =>
              && k < |chunks| && keep <= |chunks[k].data|
              && t + 5 <= |body| && body[..t + 5] == EncodeChunks(chunks[..k], PartialChunk(chunks[k], keep))
              && var merged := InsertAll(h, Stray(chunks[k], keep));
                 Parse(raw, inflate)
                   == Response(status, merged, BodyText(PayloadUpTo(chunks, k, keep), merged, true, inflate), raw)
            case None =>
              var plain := EndsPlainly(chunks, last, trailers);
              Parse(raw, inflate) ==
              Response(status, h, if plain then BodyText(Payload(chunks), h, true, inflate) else body, raw)
  {
    k, keep := 0, 0;
    if Contains(EncodeChunks(chunks, ""), TERMINATOR) {
      k, keep := ParseOfHit(head, chunks, last, trailers, inflate);
    } else {
      ParseWithoutHit(head, chunks, last, trailers, inflate);
    }
  }

  lemma ParseOfHit(head: string, chunks: seq<Chunk>, last: Chunk, trailers: seq<Trailer>, inflate: Inflate)
    returns (k: nat, keep: nat)
    requires AnnouncesChunked(head) && ValidChunks(chunks) && ValidLast(last) && ValidTrailers(trailers)
    requires |Message(head, Encode(chunks, last, trailers, ""))| < SIZE_MODULUS
    requires Contains(EncodeChunks(chunks, ""), TERMINATOR)
    ensures k < |chunks| && keep <= |chunks[k].data|
    ensures var h, body := HeadFields(head, Trim), Encode(chunks, last, trailers, "");
            var t, merged := Find(EncodeChunks(chunks, ""), TERMINATOR, 0).value, InsertAll(h, Stray(chunks[k], keep));
            && t + 5 <= |body| && body[..t + 5] == EncodeChunks(chunks[..k], PartialChunk(chunks[k], keep))
            && Parse(Message(head, body), inflate) ==
               Response(HeadStatus(head), merged, BodyText(PayloadUpTo(chunks, k, keep), merged, true, inflate),
                        Message(head, body))
  {
    hide EncodeChunks;
    hide Encode;
    hide Decode;
    hide Parse;
    hide Find;
    hide BodyText;
    hide HeadFields;
    hide HeadStatus;
    hide AnnouncesChunked;
    hide PartialChunk;
    hide PayloadUpTo;
    hide Stray;
    hide Message;
    k, keep := CutOfHit(chunks, last, trailers);
    DecodeCut(chunks, k, keep);
    ParseOfMessage(head, Encode(chunks, last, trailers, ""),
                   Find(EncodeChunks(chunks, ""), TERMINATOR, 0).value, inflate);
  }

  lemma ParsePlain(head: string, chunks: seq<Chunk>, last: Chunk, trailers: seq<Trailer>, inflate: Inflate)
    requires AnnouncesChunked(head) && ValidChunks(chunks) && ValidLast(last) && ValidTrailers(trailers)
    requires |Message(head, Encode(chunks, last, trailers, ""))| < SIZE_MODULUS
    requires !Contains(EncodeChunks(chunks, ""), TERMINATOR) && EndsPlainly(chunks, last, trailers)
    ensures var h, body := HeadFields(head, Trim), Encode(chunks, last, trailers, "");
            Parse(Message(head, body), inflate) ==
            Response(HeadStatus(head), h, BodyText(Payload(chunks), h, true, inflate), Message(head, body))
  {
    hide EncodeChunks;
    hide Encode;
    hide Decode;
    hide Parse;
    hide Find;
    hide BodyText;
    hide HeadFields;
    hide HeadStatus;
    hide AnnouncesChunked;
    hide Message;
    hide Line;
    hide EndsPlainly;
    hide InsertAll;
    hide ValidChunks;
    hide ValidLast;
    FirstTerminator(chunks, last, trailers);
    PlainCut(chunks, last, trailers);
    DecodePlain(chunks, last);
    NothingMerged(HeadFields(head, Trim));
    ParseOfMessage(head, Encode(chunks, last, trailers, ""), |EncodeChunks(chunks, "")| - 2, inflate);
  }

  lemma ParseWithoutHit(head: string, chunks: seq<Chunk>, last: Chunk, trailers: seq<Trailer>, inflate: Inflate)
    requires AnnouncesChunked(head) && ValidChunks(chunks) && ValidLast(last) && ValidTrailers(trailers)
    requires |Message(head, Encode(chunks, last, trailers, ""))| < SIZE_MODULUS
    requires !Contains(EncodeChunks(chunks, ""), TERMINATOR)
    ensures var h, body := HeadFields(head, Trim), Encode(chunks, last, trailers, "");
            Parse(Message(head, body), inflate) ==
            Response(HeadStatus(head), h,
                     if EndsPlainly(chunks, last, trailers) then BodyText(Payload(chunks), h, true, inflate) else body,
                     Message(head, body))
  {
    if EndsPlainly(chunks, last, trailers) {
      ParsePlain(head, chunks, last, trailers, inflate);
    } else {
      FirstTerminator(chunks, last, trailers);
      hide EncodeChunks;
      hide Encode;
      hide Parse;
      hide Find;
      hide AnnouncesChunked;
      UnterminatedChunked(head, Encode(chunks, last, trailers, ""), "GET", inflate);
    }
  }

  lemma NothingMerged(h: Headers)
    ensures InsertAll(h, map[]) == h
  {
  }

  lemma PlainCut(chunks: seq<Chunk>, last: Chunk, trailers: seq<Trailer>)
    requires EndsPlainly(chunks, last, trailers)
    ensures var body, n := Encode(chunks, last, trailers, ""), |EncodeChunks(chunks, "")|;
            n + 3 <= |body| && body[..n + 3] == EncodeChunks(chunks, Line(SizeLine(last), ""))
  {
    hide EncodeChunks;
    var front, cut := EncodeChunks(chunks, ""), Line(SizeLine(last), "");
    BodyIs(chunks, last, trailers);
    EncodeChunksAppends(chunks, cut);
    assert Line("0", Line("", "")) == cut + CRLF;
    assert front + (cut + CRLF) == (front + cut) + CRLF;
  }

  /** The first terminator is the real end, or ends with the line break behind the last chunk. */
  predicate IsIntact(chunks: seq<Chunk>, last: Chunk, trailers: seq<Trailer>) {
    match Find(EncodeChunks(chunks, ""), TERMINATOR, 0)
    case Some(t) => t + 7 == |EncodeChunks(chunks, "")|
    case None => EndsPlainly(chunks, last, trailers)
  }

  /** Without a content coding, the text of the response is the whole payload if and only if the first terminator
      does not cut into it and the end is found at all. */
  lemma ChunkedText(head: string, chunks: seq<Chunk>, last: Chunk, trailers: seq<Trailer>, inflate: Inflate)
    requires AnnouncesChunked(head) && ValidChunks(chunks) && ValidLast(last) && ValidTrailers(trailers)
    requires |Message(head, Encode(chunks, last, trailers, ""))| < SIZE_MODULUS
    ensures var response := Parse(Message(head, Encode(chunks, last, trailers, "")), inflate);
            Get(response.headers, "Content-Encoding").None? ==>
              (response.text == Payload(chunks) <==> IsIntact(chunks, last, trailers))
  {
    hide Encode;
    hide EncodeChunks;
    hide Parse;
    hide HeadFields;
    hide HeadStatus;
    hide AnnouncesChunked;
    hide PartialChunk;
    hide PayloadUpTo;
    hide Find;
    hide EndsPlainly;
    var k, keep := ChunkedParse(head, chunks, last, trailers, inflate);
    if Find(EncodeChunks(chunks, ""), TERMINATOR, 0).Some? {
      CutIsIntact(chunks, last, trailers, k, keep);
    } else {
      BodyIsLonger(chunks, last, trailers);
    }
  }

  lemma CutIsIntact(chunks: seq<Chunk>, last: Chunk, trailers: seq<Trailer>, k: nat, keep: nat)
    requires ValidChunks(chunks) && k < |chunks| && keep <= |chunks[k].data|
    requires Find(EncodeChunks(chunks, ""), TERMINATOR, 0).Some?
    requires var t, body := Find(EncodeChunks(chunks, ""), TERMINATOR, 0).value, Encode(chunks, last, trailers, "");
             t + 5 <= |body| && body[..t + 5] == EncodeChunks(chunks[..k], PartialChunk(chunks[k], keep))
    ensures PayloadUpTo(chunks, k, keep) == Payload(chunks) <==> IsIntact(chunks, last, trailers)
  {
    hide EncodeChunks;
    hide Encode;
    hide Find;
    PayloadIsWhole(chunks, k, keep);
    PrefixLength(chunks, k, keep);
  }

  /** How many bytes a cut keeps. */
  lemma {:induction false} PrefixLength(chunks: seq<Chunk>, k: nat, keep: nat)
    requires k < |chunks| && keep <= |chunks[k].data|
    ensures var cut, all := |EncodeChunks(chunks[..k], PartialChunk(chunks[k], keep))|, |EncodeChunks(chunks, "")|;
            cut + 2 <= all && (cut + 2 == all <==> k == |chunks| - 1 && keep == |chunks[k].data|)
    decreases |chunks|
  {
    hide PartialChunk;
    hide Line;
    ChunkLength(chunks);
    if k == 0 {
      assert chunks[..0] == [];
      PartialLength(chunks[0], keep);
      if |chunks| > 1 { ChunkLength(chunks[1..]); }
    } else {
      assert chunks[..k][1..] == chunks[1..][..k - 1];
      var partial := PartialChunk(chunks[k], keep);
      FirstChunk(chunks[..k], partial);
      LineLength(chunks[0].data, EncodeChunks(chunks[..k][1..], partial));
      LineLength(SizeLine(chunks[0]), Line(chunks[0].data, EncodeChunks(chunks[..k][1..], partial)));
      hide EncodeChunks;
      PrefixLength(chunks[1..], k - 1, keep);
    }
  }

  lemma LineLength(text: string, rest: string)
    ensures |Line(text, rest)| == |text| + 2 + |rest|
  {
  }

  lemma PartialLength(c: Chunk, keep: nat)
    requires keep <= |c.data|
    ensures |PartialChunk(c, keep)| == |SizeLine(c)| + 2 + keep
  {
  }

  /** Headers that were not sent in the head appear exactly when the first terminator cuts a chunk short and the
      bytes kept of it, read as trailer lines, name a new one. */
  lemma ChunkedHeaders(head: string, chunks: seq<Chunk>, last: Chunk, trailers: seq<Trailer>, inflate: Inflate)
    returns (k: nat, keep: nat)
    requires AnnouncesChunked(head) && ValidChunks(chunks) && ValidLast(last) && ValidTrailers(trailers)
    requires |Message(head, Encode(chunks, last, trailers, ""))| < SIZE_MODULUS
    ensures var h, body := HeadFields(head, Trim), Encode(chunks, last, trailers, "");
            var response := Parse(Message(head, body), inflate);
            match Find(EncodeChunks(chunks, ""), TERMINATOR, 0)
            case None => response.headers == h
            case Some(t) =>
              && k < |chunks| && keep <= |chunks[k].data|
              && t + 5 <= |body| && body[..t + 5] == EncodeChunks(chunks[..k], PartialChunk(chunks[k], keep))
              && (response.headers == h <==> forall name :: name in Stray(chunks[k], keep) ==> name in h)
  {
    hide Encode;
    hide EncodeChunks;
    hide Parse;
    hide HeadFields;
    hide HeadStatus;
    hide AnnouncesChunked;
    hide BodyText;
    hide Find;
    hide Stray;
    hide PartialChunk;
    k, keep := ChunkedParse(head, chunks, last, trailers, inflate);
    if Contains(EncodeChunks(chunks, ""), TERMINATOR) {
      MergesNothing(HeadFields(head, Trim), Stray(chunks[k], keep));
    }
  }

  lemma MergesNothing(h: Headers, other: Headers)
    ensures InsertAll(h, other) == h <==> forall name :: name in other ==> name in h
  {
    if forall name :: name in other ==> name in h {
      assert (other + h).Keys == h.Keys;
    } else {
      var name :| name in other && name !in h;
      assert name in other + h;
    }
  }

  /** A chunked body is seen as complete exactly when the terminator stands in its chunks or its end is plain. */
  lemma SeenComplete(head: string, chunks: seq<Chunk>, last: Chunk, trailers: seq<Trailer>, verb: string, eof: bool)
    requires AnnouncesChunked(head) && !IsHead(verb)
    requires ValidChunks(chunks) && ValidLast(last) && ValidTrailers(trailers)
    ensures HasCompleteResponse(Message(head, Encode(chunks, last, trailers, "")), verb, eof) <==>
            Contains(EncodeChunks(chunks, ""), TERMINATOR) || EndsPlainly(chunks, last, trailers)
  {
    hide HeadFields;
    hide HeadStatus;
    hide HeaderMentions;
    hide Encode;
    hide EncodeChunks;
    hide Find;
    hide EndsPlainly;
    var body := Encode(chunks, last, trailers, "");
    MessageParts(head, body);
    FirstTerminator(chunks, last, trailers);
    StopTestAgreesWithParser(Message(head, body), verb);
    CleaningKeepsFraming(head);
  }

  /** The well-formed chunked bodies that the terminator search misses: the empty one, those with trailers, and
      those whose last chunk is not written "0" alone. The decoder itself reads all of them. */
  lemma MissedBodies(head: string, chunks: seq<Chunk>, last: Chunk, trailers: seq<Trailer>, verb: string,
                     inflate: Inflate)
    requires AnnouncesChunked(head) && !IsHead(verb)
    requires ValidChunks(chunks) && ValidLast(last) && ValidTrailers(trailers)
    requires !Contains(EncodeChunks(chunks, ""), TERMINATOR) && !EndsPlainly(chunks, last, trailers)
    ensures var body := Encode(chunks, last, trailers, "");
            && Decode(body) == ChunkDecodeResult(Payload(chunks), TrailerMap(trailers))
            && !HasCompleteResponse(Message(head, body), verb, true)
            && Parse(Message(head, body), inflate).text == body != Payload(chunks)
            && Parse(Message(head, body), inflate).headers == HeadFields(head, Trim)
  {
    hide Encode;
    hide EncodeChunks;
    hide Decode;
    hide HasCompleteResponse;
    hide Parse;
    hide HeadFields;
    hide Find;
    hide EndsPlainly;
    RoundTrip(chunks, last, trailers, "");
    FirstTerminator(chunks, last, trailers);
    UnterminatedChunked(head, Encode(chunks, last, trailers, ""), verb, inflate);
    BodyIsLonger(chunks, last, trailers);
  }

  lemma BodyIsLonger(chunks: seq<Chunk>, last: Chunk, trailers: seq<Trailer>)
    ensures |Encode(chunks, last, trailers, "")| > |Payload(chunks)|
  {
    hide EncodeChunks;
    EncodingIsLonger(chunks, Line(last.size + last.extension, EncodeTrailers(trailers, Line("", ""))));
  }

  lemma {:induction false} EncodingIsLonger(chunks: seq<Chunk>, rest: string)
    ensures |Payload(chunks)| + |rest| <= |EncodeChunks(chunks, rest)|
  {
    if chunks != [] {
      EncodingIsLonger(chunks[1..], rest);
    }
  }
}
