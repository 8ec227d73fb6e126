/** Responses as a server writes them, with a status line, field lines and a body of stated length or in chunks,
    and what the client makes of them. */
module Messages {
  import opened Text
  import opened Numbers
  import opened HeaderMap
  import opened Chunked
  import opened Http1
  import opened Receive
  import opened ChunkedResponse
  import opened Framing

  // ----- the head -----

  function StatusLine(status: nat, reason: string): string {
    "HTTP/1.1 " + ToDecimal(status) + " " + reason
  }

  function FieldLine(t: Trailer): string {
    t.name + ":" + t.value
  }

  /** The field lines, each behind the end of the line in front of it. */
  function FieldLines(fields: seq<Trailer>): string {
    if fields == [] then "" else "\r\n" + FieldLine(fields[0]) + FieldLines(fields[1..])
  }

  function WrittenHead(status: nat, reason: string, fields: seq<Trailer>): string {
    StatusLine(status, reason) + FieldLines(fields)
  }

  predicate IsOneLine(text: string) {
    '\r' !in text && '\n' !in text
  }

  ghost predicate CanWrite(fields: seq<Trailer>) {
    forall t :: t in fields ==> ':' !in t.name && IsOneLine(t.name) && IsOneLine(t.value)
  }

  function Texts(fields: seq<Trailer>): seq<string> {
    if fields == [] then [] else [FieldLine(fields[0])] + Texts(fields[1..])
  }

  // ----- its lines -----

  lemma CutAtNone(s: string)
    requires '\n' !in s
    ensures CutAt(s, '\n') == (s, None)
  {
    assert s[0..] == s;
    FindCharNone(s, '\n', 0);
  }

  lemma FirstLine(line: string, rest: string)
    requires '\n' !in line
    ensures Lines(line + (['\n'] + rest)) == [ChopCr(line)] + Lines(rest)
  {
    hide ChopCr;
    CutAtBehind(line, ['\n'] + rest, '\n');
    CutAtOwn('\n', rest);
    hide CutAt;
    assert line + "" == line;
  }

  lemma LastLine(line: string)
    requires '\n' !in line && line != ""
    ensures Lines(line) == [ChopCr(line)]
  {
    hide ChopCr;
    CutAtNone(line);
    hide CutAt;
    assert [ChopCr(line)] + [] == [ChopCr(line)];
  }

  lemma FieldLineShape(t: Trailer)
    requires IsOneLine(t.name) && IsOneLine(t.value)
    ensures FieldLine(t) != "" && IsOneLine(FieldLine(t))
  {
  }

  lemma {:induction false} LinesOf(line: string, fields: seq<Trailer>)
    requires line != "" && IsOneLine(line) && CanWrite(fields)
    ensures Lines(line + FieldLines(fields)) == [line] + Texts(fields)
    decreases |fields|
  {
    hide Lines;
    hide FieldLine;
    assert ChopCr(line) == line;
    if fields == [] {
      assert line + "" == line;
      LastLine(line);
      assert [line] + [] == [line];
    } else {
      var next := FieldLine(fields[0]);
      assert fields[0] in fields;
      FieldLineShape(fields[0]);
      assert forall t :: t in fields[1..] ==> t in fields;
      LinesOf(next, fields[1..]);
      var rest := next + FieldLines(fields[1..]);
      assert line + ("\r\n" + next + FieldLines(fields[1..])) == (line + "\r") + (['\n'] + rest);
      assert ChopCr(line + "\r") == line;
      FirstLine(line + "\r", rest);
    }
  }

  // ----- its status -----

  lemma {:induction false} DropWordOf(word: string, rest: string)
    requires forall c :: c in word ==> !IsSpace(c)
    requires rest != "" && IsSpace(rest[0])
    ensures DropWord(word + rest) == rest
  {
    if word == "" {
      assert word + rest == rest;
    } else {
      assert (word + rest)[0] == word[0] && word[0] in word && (word + rest)[1..] == word[1..] + rest;
      DropWordOf(word[1..], rest);
    }
  }

  lemma NumberInFront(status: nat, rest: string)
    requires rest != "" && rest[0] == ' ' && status <= INT_MAX
    ensures ExtractInt(" " + (ToDecimal(status) + rest)) == status
  {
    var digits := ToDecimal(status);
    assert IsDigit(digits[0], 10);
    hide ToDecimal;
    hide NatOf;
    TrimLeftSkips(" ", digits + rest);
    assert (digits + rest)[0] == digits[0];
    assert TrimLeft(digits + rest) == digits + rest;
    hide TrimLeft;
    DigitRunIs(digits, rest, 10);
    assert SplitSign(digits + rest) == (false, digits + rest);
    assert SkipHexPrefix(digits + rest, 10) == digits + rest;
  }

  lemma StatusOfLine(status: nat, reason: string)
    requires status <= INT_MAX
    ensures StatusCode(StatusLine(status, reason)) == status
  {
    hide DropWord;
    hide ToDecimal;
    hide ExtractInt;
    var rest := " " + (ToDecimal(status) + (" " + reason));
    assert StatusLine(status, reason) == "HTTP/1.1" + rest;
    assert TrimLeft("HTTP/1.1" + rest) == "HTTP/1.1" + rest;
    hide TrimLeft;
    assert rest[0] == ' ';
    DropWordOf("HTTP/1.1", rest);
    NumberInFront(status, " " + reason);
  }

  lemma DecimalIsOneLine(n: nat)
    ensures IsOneLine(ToDecimal(n))
  {
    assert AllDigits(ToDecimal(n), 10);
    assert !IsDigit('\r', 10) && !IsDigit('\n', 10);
  }

  // ----- its fields -----

  lemma {:induction false} TextsSnoc(fields: seq<Trailer>)
    requires fields != []
    ensures Texts(fields) == Texts(fields[..|fields| - 1]) + [FieldLine(fields[|fields| - 1])]
    decreases |fields|
  {
    hide FieldLine;
    var n := |fields| - 1;
    if n == 0 {
      assert fields[1..] == [] && fields[..0] == [];
    } else {
      TextsSnoc(fields[1..]);
      assert fields[1..][..n - 1] == fields[..n][1..] && fields[..n][0] == fields[0];
    }
  }

  lemma {:induction false} FieldsOfTexts(fields: seq<Trailer>)
    requires CanWrite(fields)
    ensures Fields(Texts(fields), Trim) == TrailerMap(fields)
    decreases |fields|
  {
    hide AddField;
    hide Put;
    hide Trim;
    if fields != [] {
      var n := |fields| - 1;
      TextsSnoc(fields);
      assert fields[n] in fields;
      AddEncodedTrailer(TrailerMap(fields[..n]), fields[n]);
      assert forall t :: t in fields[..n] ==> t in fields;
      FieldsOfTexts(fields[..n]);
      assert Texts(fields)[..|Texts(fields)| - 1] == Texts(fields[..n]);
    }
  }

  // ----- its end -----

  lemma HeadEndChars(s: string, j: nat)
    requires OccursAt(s, HEAD_END, j)
    ensures j + 4 <= |s| && s[j] == '\r' && s[j + 2] == '\r'
  {
    assert s[j..j + 4][0] == s[j] && s[j..j + 4][2] == s[j + 2];
  }

  lemma NoEndInLine(line: string, next: string, j: nat)
    requires IsOneLine(line) && next != "" && next[0] != '\r'
    requires OccursAt(line + ("\r\n" + next), HEAD_END, j)
    ensures j >= |line| + 2 && OccursAt(next, HEAD_END, j - |line| - 2)
  {
    var s := line + ("\r\n" + next);
    HeadEndChars(s, j);
    assert forall i :: 0 <= i < |line| ==> s[i] == line[i];
    assert s[|line| + 1] == '\n' && s[|line| + 2] == next[0];
    assert s == (line + "\r\n") + next;
    OccursAtBehind(line + "\r\n", next, HEAD_END, j - |line| - 2);
  }

  /** No blank line stands in front of the end of the head. */
  lemma {:induction false} EndOfHead(line: string, fields: seq<Trailer>, j: nat)
    requires line != "" && IsOneLine(line) && CanWrite(fields)
    requires OccursAt(line + FieldLines(fields) + HEAD_END, HEAD_END, j)
    ensures j >= |line + FieldLines(fields)|
    decreases |fields|
  {
    hide FieldLine;
    hide OccursAt;
    var s := line + FieldLines(fields) + HEAD_END;
    if fields == [] {
      assert s == line + HEAD_END;
      HeadEndChars(s, j);
      assert forall i :: 0 <= i < |line| ==> s[i] == line[i];
    } else {
      var next := FieldLine(fields[0]);
      assert fields[0] in fields;
      FieldLineShape(fields[0]);
      assert forall t :: t in fields[1..] ==> t in fields;
      var more := next + FieldLines(fields[1..]) + HEAD_END;
      assert more[0] == next[0] && next[0] in next;
      assert s == line + ("\r\n" + more);
      NoEndInLine(line, more, j);
      EndOfHead(next, fields[1..], j - |line| - 2);
    }
  }

  /** The client reads the status and the fields that the server wrote. */
  lemma HeadReads(status: nat, reason: string, fields: seq<Trailer>)
    requires status <= INT_MAX && IsOneLine(reason) && CanWrite(fields)
    ensures var head := WrittenHead(status, reason, fields);
            IsMessageHead(head) && HeadStatus(head) == status && HeadFields(head, Trim) == TrailerMap(fields)
  {
    hide Lines;
    hide Fields;
    hide TrailerMap;
    hide StatusCode;
    hide FieldLines;
    hide Texts;
    hide OccursAt;
    hide ToDecimal;
    var line, head := StatusLine(status, reason), WrittenHead(status, reason, fields);
    DecimalIsOneLine(status);
    LinesOf(line, fields);
    StatusOfLine(status, reason);
    assert ([line] + Texts(fields))[1..] == Texts(fields);
    FieldsOfTexts(fields);
    HeadEndBehind(head);
    forall j | 0 <= j < |head|
      ensures !OccursAt(head + HEAD_END, HEAD_END, j)
    {
      if OccursAt(head + HEAD_END, HEAD_END, j) {
        EndOfHead(line, fields, j);
      }
    }
    FindIs(head + HEAD_END, HEAD_END, 0, |head|);
  }

  lemma HeadEndBehind(head: string)
    ensures OccursAt(head + HEAD_END, HEAD_END, |head|)
  {
    assert (head + HEAD_END)[|head|..|head| + 4] == HEAD_END;
  }

  // ----- the text of a response without chunked or content coding -----

  /** Informational, 204 (No Content) and 304 (Not Modified). */
  predicate IsBodiless(status: int) {
    100 <= status <= 199 || status in {204, 304}
  }

  /** Exactly these responses end with their heads, whatever their fields say. */
  lemma BodilessEnds(status: int)
    ensures IsBodiless(status) <==>
            forall raw: string, headEnd: nat, h: Headers ::
              BodyEnd(raw, headEnd, h, status, "GET") == Some(headEnd + 4)
  {
    assert ToLower("GET") == "get";
    if !IsBodiless(status) {
      assert BodyEnd("", 0, map[], status, "GET") == None by {
        NoFieldsNoEnd();
      }
    }
  }

  lemma NoFieldsNoEnd()
    ensures !MentionsChunked(map[]) && ContentLength(map[]) == 0 && !ConnectionClose(map[])
  {
  }

  /** The whole response. */
  lemma PlainResponse(head: string, body: string, inflate: Inflate)
    requires IsMessageHead(head) && |head| + 4 + |body| < SIZE_MODULUS
    requires var h := HeadFields(head, Trim); !MentionsChunked(h) && Get(h, "Content-Encoding").None?
    ensures var h, status := HeadFields(head, Trim), HeadStatus(head);
            var n := ContentLength(h);
            Parse(Message(head, body), inflate) ==
            Response(status, h,
                     if IsBodiless(status) then "" else if 0 < n <= |body| then body[..n] else body,
                     Message(head, body))
  {
    hide HeadFields;
    hide HeadStatus;
    hide HeaderMentions;
    hide ContentLength;
    hide View;
    hide IsMessageHead;
    hide Find;
    MessageParts(head, body);
    var h, status, raw := HeadFields(head, Trim), HeadStatus(head), Message(head, body);
    var start, n := |head| + 4, ContentLength(h);
    assert head != "" && |raw| == start + |body| by {
      HeadIsNotEmpty(head);
    }
    assert ToLower("") == "";
    EmptyView(raw, start);
    if n > 0 && |raw| >= (start + n) % SIZE_MODULUS {
      LengthView(raw, start, n);
      assert n <= |body| ==> raw[start..start + n] == body[..n];
    }
    WholeView(raw, start);
  }

  lemma HeadIsNotEmpty(head: string)
    requires IsMessageHead(head)
    ensures head != ""
  {
  }

  /** Bytes without a blank line, or that begin with one, give no status and no fields. */
  lemma NoHead(raw: string, inflate: Inflate)
    ensures HeadEnd(raw).None? ==> Parse(raw, inflate) == Response(0, map[], raw, raw)
    ensures Parse("\r\n\r\n" + raw, inflate) == Response(0, map[], raw, "\r\n\r\n" + raw)
  {
    hide BodyText;
    hide Decode;
    hide BodyEnd;
    hide HeadFields;
    hide HeadStatus;
    var all := HEAD_END + raw;
    assert all[0..4] == HEAD_END;
    FindIs(all, HEAD_END, 0, 0);
    hide Find;
    assert all[4..] == raw && all[..0] == "";
  }

  // ----- written, split, received and parsed -----

  /** A message that its head delimits, in front of anything and split in any way. */
  lemma DelimitedReads(message: string, rest: string, chunks: seq<string>, verb: string, inflate: Inflate)
    requires DelimitedMessage(message, verb) && NonEmptyChunks(chunks) && Concat(chunks) == message + rest
    ensures var (raw, eof) := Received("", chunks, verb);
            !eof && SameMessage(Parse(raw, inflate), Parse(message, inflate))
  {
    hide HasCompleteResponse;
    hide Delimited;
    hide Parse;
    hide ParserEnd;
    CompleteMeansParserEnd(message, verb);
    HeadStable(message, rest);
    SameHeadSameDelimiting(message, message + rest, HeadEnd(message).value);
    CompleteStays(message, rest, verb);
    ParseStable(message, rest, inflate);
    SegmentationIndependence(chunks, verb, inflate);
  }

  /** The fields announce a body of `n` bytes, with no transfer or content coding. */
  ghost predicate SaysLength(fields: seq<Trailer>, n: nat) {
    && LastValue(fields, "Content-Length") == Some(ToDecimal(n))
    && LastValue(fields, "Transfer-Encoding").None? && LastValue(fields, "Content-Encoding").None?
  }

  lemma LengthIsRead(fields: seq<Trailer>, n: nat)
    requires SaysLength(fields, n) && n < SIZE_MODULUS
    ensures var h := TrailerMap(fields);
            ContentLength(h) == n && !MentionsChunked(h) && Get(h, "Content-Encoding").None?
  {
    hide TrailerMap;
    hide LastValue;
    hide Get;
    hide ToDecimal;
    hide Numeral;
    TrailerLookup(fields, "Content-Length");
    TrailerLookup(fields, "Transfer-Encoding");
    TrailerLookup(fields, "Content-Encoding");
    assert AllDigits(ToDecimal(n), 10) && NatOf(ToDecimal(n), 10) == n;
    NumeralOfDigits(ToDecimal(n), 10);
  }

  lemma LengthDelimits(head: string, body: string, verb: string)
    requires IsMessageHead(head) && !IsBodiless(HeadStatus(head)) && ToLower(verb) != "head"
    requires var h := HeadFields(head, Trim); !MentionsChunked(h) && ContentLength(h) == |body| > 0
    requires |Message(head, body)| < SIZE_MODULUS
    ensures DelimitedMessage(Message(head, body), verb)
  {
    hide HeadFields;
    hide HeadStatus;
    hide HeaderMentions;
    hide ContentLength;
    hide HasCompleteResponse;
    hide StopEnd;
    hide IsMessageHead;
    StopIs(head, body, verb);
    MessageParts(head, body);
    assert |Message(head, body)| == |head| + 4 + |body|;
    SmallModulo(|head| + 4 + |body|, SIZE_MODULUS);
  }

  /** A response with a body of stated length, written by a server, followed by anything and split in any way, is
      received and parsed into the status, the fields and the body that were written. */
  lemma LengthRoundTrip(status: nat, reason: string, fields: seq<Trailer>, body: string, rest: string,
                        chunks: seq<string>, verb: string, inflate: Inflate)
    requires status <= INT_MAX && !IsBodiless(status) && IsOneLine(reason) && CanWrite(fields)
    requires SaysLength(fields, |body|) && body != "" && ToLower(verb) != "head"
    requires |Message(WrittenHead(status, reason, fields), body)| < SIZE_MODULUS
    requires NonEmptyChunks(chunks) && Concat(chunks) == Message(WrittenHead(status, reason, fields), body) + rest
    ensures var (raw, eof) := Received("", chunks, verb);
            !eof && Parse(raw, inflate) == Response(status, TrailerMap(fields), body, raw)
  {
    hide WrittenHead;
    hide TrailerMap;
    hide HeadFields;
    hide HeadStatus;
    hide HeaderMentions;
    hide ContentLength;
    hide DelimitedMessage;
    hide SaysLength;
    hide CanWrite;
    hide Parse;
    hide IsMessageHead;
    var head := WrittenHead(status, reason, fields);
    assert |Message(head, body)| == |head| + 4 + |body|;
    HeadReads(status, reason, fields);
    LengthIsRead(fields, |body|);
    PlainResponse(head, body, inflate);
    assert body[..|body|] == body;
    LengthDelimits(head, body, verb);
    DelimitedReads(Message(head, body), rest, chunks, verb, inflate);
    ParseKeepsRaw(Received("", chunks, verb).0, inflate);
  }

  /** The fields announce a chunked body without content coding. */
  ghost predicate SaysChunked(fields: seq<Trailer>) {
    LastValue(fields, "Transfer-Encoding") == Some("chunked") && LastValue(fields, "Content-Encoding").None?
  }

  lemma ChunkedIsRead(fields: seq<Trailer>)
    requires SaysChunked(fields)
    ensures MentionsChunked(TrailerMap(fields)) && Get(TrailerMap(fields), "Content-Encoding").None?
  {
    hide TrailerMap;
    hide LastValue;
    hide Get;
    hide Find;
    TrailerLookup(fields, "Transfer-Encoding");
    TrailerLookup(fields, "Content-Encoding");
    assert ToLower("chunked") == "chunked";
    assert OccursAt("chunked", "chunked", 0) by {
      assert "chunked"[0..7] == "chunked";
    }
  }

  lemma ChunkedDelimits(head: string, chunks: seq<Chunk>, last: Chunk, verb: string)
    requires AnnouncesChunked(head) && ToLower(verb) != "head" && ValidChunks(chunks) && ValidLast(last)
    requires EndsPlainly(chunks, last, [])
    ensures DelimitedMessage(Message(head, Encode(chunks, last, [], "")), verb)
  {
    hide HasCompleteResponse;
    hide HeadFields;
    hide HeadStatus;
    hide HeaderMentions;
    hide IsMessageHead;
    hide Encode;
    hide EndsPlainly;
    SeenComplete(head, chunks, last, [], verb, false);
    MessageParts(head, Encode(chunks, last, [], ""));
  }

  /** The same for a body in chunks, written with their lengths in hexadecimal, as long as the data do not hold
      an end of body themselves. */
  lemma ChunkedRoundTrip(status: nat, reason: string, fields: seq<Trailer>, pieces: seq<string>, digits: string,
                         rest: string, chunks: seq<string>, verb: string, inflate: Inflate)
    requires status <= INT_MAX && !IsBodiless(status) && IsOneLine(reason) && CanWrite(fields)
    requires SaysChunked(fields) && CanSend(pieces) && pieces != [] && IsHexDigits(digits) && ToLower(verb) != "head"
    requires !Contains(Written(pieces, digits, ""), TERMINATOR)
    requires var message := Message(WrittenHead(status, reason, fields), Written(pieces, digits, "0\r\n\r\n"));
             |message| < SIZE_MODULUS && NonEmptyChunks(chunks) && Concat(chunks) == message + rest
    ensures var (raw, eof) := Received("", chunks, verb);
            !eof && Parse(raw, inflate) == Response(status, TrailerMap(fields), Concat(pieces), raw)
  {
    hide WrittenHead;
    hide TrailerMap;
    hide HeadFields;
    hide HeadStatus;
    hide HeaderMentions;
    hide DelimitedMessage;
    hide SaysChunked;
    hide CanWrite;
    hide Parse;
    hide IsMessageHead;
    hide Written;
    hide HexChunks;
    hide Encode;
    hide Find;
    hide ValidLast;
    var head, last := WrittenHead(status, reason, fields), Chunk("0", "", "");
    var sent := HexChunks(pieces, digits);
    HeadReads(status, reason, fields);
    ChunkedIsRead(fields);
    ZeroSize();
    HexChunksAre(pieces, digits, "");
    WrittenIsEncoded(pieces, digits);
    var k, keep := ChunkedParse(head, sent, last, [], inflate);
    ChunkedDelimits(head, sent, last, verb);
    DelimitedReads(Message(head, Encode(sent, last, [], "")), rest, chunks, verb, inflate);
    ParseKeepsRaw(Received("", chunks, verb).0, inflate);
  }

  lemma WrittenIsEncoded(pieces: seq<string>, digits: string)
    requires IsHexDigits(digits) && CanSend(pieces) && pieces != []
    ensures var sent, last := HexChunks(pieces, digits), Chunk("0", "", "");
            && Encode(sent, last, [], "") == Written(pieces, digits, "0\r\n\r\n") && EndsPlainly(sent, last, [])
  {
    hide Written;
    HexChunksAre(pieces, digits, "0\r\n\r\n");
    assert Line("0" + "", EncodeTrailers([], Line("", ""))) == "0\r\n\r\n";
  }
}
