/** Inputs on which the client does not do what one would first expect, one for each property that README lists as
    failing, and inputs that show that the theorems about delimited messages are not empty. */
module Counterexamples {
  import opened Text
  import opened Numbers
  import opened HeaderMap
  import opened Chunked
  import opened Http1
  import opened Receive
  import opened ChunkedResponse
  import opened Framing
  import opened Messages
  import opened Boundaries
  import opened ContentCoding
  import opened Urls
  import opened RedirectTargets
  import opened Bytes
  import References
  import Ntlm
  import opened Cookies
  import MozillaFormat
  import CookieJars
  import Digest

  // ----- heads with one field -----

  const STATUS_LINE := "HTTP/1.1 200 OK"

  function Head(name: string, value: string): string {
    STATUS_LINE + CRLF + name + ": " + value
  }

  predicate PlainField(name: string, value: string) {
    && name != "" && ':' !in name && '\r' !in name && '\n' !in name
    && '\r' !in value && '\n' !in value && value != "" && !IsSpace(value[0]) && !IsSpace(value[|value| - 1])
  }

  lemma HeadIsWritten(name: string, value: string)
    ensures Head(name, value) == WrittenHead(200, "OK", [Trailer(name, " " + value)])
  {
    var t := Trailer(name, " " + value);
    assert ToDecimal(20) == "20" && ToDecimal(200) == "200";
    assert FieldLines([t]) == "\r\n" + FieldLine(t) + "";
    assert STATUS_LINE == "HTTP/1.1 " + "200" + " " + "OK";
    hide ToDecimal;
    assert name + ": " + value == name + ":" + (" " + value);
  }

  lemma TrimOfValue(value: string)
    requires value != "" && !IsSpace(value[0]) && !IsSpace(value[|value| - 1])
    ensures Trim(" " + value) == value
  {
    TrimLeftSkips(" ", value);
    assert TrimLeft(value) == value && TrimRight(value) == value;
  }

  lemma FieldsOfHead(name: string, value: string)
    requires PlainField(name, value)
    ensures HeadFields(Head(name, value), Trim) == map[ToLower(name) := Field(name, value)]
    ensures HeadStatus(Head(name, value)) == 200 && IsMessageHead(Head(name, value))
  {
    hide Head;
    hide WrittenHead;
    hide HeadFields;
    hide HeadStatus;
    hide IsMessageHead;
    hide ToLower;
    hide Trim;
    var fields := [Trailer(name, " " + value)];
    HeadIsWritten(name, value);
    TrimOfValue(value);
    HeadReads(200, "OK", fields);
    assert fields[..0] == [];
  }

  // ----- a length of zero -----

  /** "Content-Length: 0" without "close" is never complete, whatever follows and even at the end of the stream,
      while the standard has the response end with its head. */
  lemma ZeroLengthIsLost(body: string, eof: bool)
    ensures var head := Head("Content-Length", "0");
            && !HasCompleteResponse(Message(head, body), "GET", eof)
            && HasGoodLength(HeadFields(head, Trim))
            && StandardLength(HeadFields(head, Trim), HeadStatus(head), "GET") == Length(0)
            && IsComplete(Length(0), body)
  {
    hide Head;
    hide HeadFields;
    hide HeadStatus;
    hide StandardLength;
    hide HasGoodLength;
    hide ContentLength;
    hide HeaderMentions;
    hide IsMessageHead;
    hide IsComplete;
    hide HasCompleteResponse;
    hide IsHead;
    hide Get;
    hide Trim;
    hide Message;
    var head := Head("Content-Length", "0");
    ZeroLengthFields();
    ZeroLengthFraming(HeadFields(head, Trim));
    CompleteWhen(Length(0), body);
    GetIsNotHead();
    ZeroLengthIsNeverComplete(head, body, "GET", eof);
  }

  lemma GetIsNotHead()
    ensures !IsHead("GET")
  {
  }

  lemma ZeroLengthFields()
    ensures var head := Head("Content-Length", "0");
            && HeadFields(head, Trim) == map["content-length" := Field("Content-Length", "0")]
            && HeadStatus(head) == 200 && IsMessageHead(head)
  {
    hide Head;
    hide HeadFields;
    hide HeadStatus;
    hide IsMessageHead;
    FieldsOfHead("Content-Length", "0");
    assert ToLower("Content-Length") == "content-length";
  }

  lemma ZeroLengthFraming(h: Headers)
    requires h == map["content-length" := Field("Content-Length", "0")]
    ensures HasGoodLength(h) && !MentionsChunked(h) && !ConnectionClose(h) && ContentLength(h) == 0
    ensures Get(h, "Content-Length") == Some("0") && StandardLength(h, 200, "GET") == Length(0)
  {
    assert ToLower("Content-Length") == "content-length";
    assert ToLower("Transfer-Encoding") == "transfer-encoding";
    assert ToLower("Connection") == "connection";
    assert ToLower("GET") == "get";
    assert NatOf("0", 10) == 0;
    hide ToLower;
    hide Numeral;
    assert HasGoodLength(h);
    LengthRead(h);
  }

  // ----- chunked bodies -----

  const CHUNKED_HEAD := Head("Transfer-Encoding", "chunked")
  const PLAIN_LAST := Chunk("0", "", "")

  lemma ContainsItself(s: string)
    ensures Contains(s, s)
  {
    assert s[0..0 + |s|] == s;
    FindIs(s, s, 0, 0);
  }

  lemma ChunkedHead()
    ensures AnnouncesChunked(CHUNKED_HEAD)
    ensures HeadFields(CHUNKED_HEAD, Trim) == map["transfer-encoding" := Field("Transfer-Encoding", "chunked")]
  {
    hide Head;
    hide HeadFields;
    hide HeadStatus;
    FieldsOfHead("Transfer-Encoding", "chunked");
    LowerTransferEncoding();
    ContainsItself("chunked");
    hide Find;
    hide ToLower;
    hide Trim;
    hide IsMessageHead;
  }

  lemma LowerTransferEncoding()
    ensures ToLower("Transfer-Encoding") == "transfer-encoding" && ToLower("chunked") == "chunked"
  {
  }

  lemma ZeroIsLast(digits: string)
    requires digits == "0" || digits == "00"
    ensures ValidLast(Chunk(digits, "", ""))
  {
    assert "0"[..0] == "" && "00"[..1] == "0";
    assert NatOf("0", 16) == 0;
    assert NatOf("00", 16) == 0;
  }

  lemma NoTerminatorInNothing()
    ensures !Contains("", TERMINATOR)
  {
  }

  /** The empty chunked body: complete, but not seen as complete, and its framing is returned as the text. */
  lemma EmptyChunkedBody(inflate: Inflate)
    ensures !HasCompleteResponse(CHUNKED_HEAD + "\r\n\r\n" + "0\r\n\r\n", "GET", true)
    ensures Parse(CHUNKED_HEAD + "\r\n\r\n" + "0\r\n\r\n", inflate).text == "0\r\n\r\n"
  {
    hide CHUNKED_HEAD;
    hide HasCompleteResponse;
    hide Parse;
    hide AnnouncesChunked;
    ChunkedHead();
    ZeroIsLast("0");
    NoTerminatorInNothing();
    assert Encode([], PLAIN_LAST, [], "") == "0\r\n\r\n";
    MissedBodies(CHUNKED_HEAD, [], PLAIN_LAST, [], "GET", inflate);
  }

  /** The same with a trailer. */
  lemma ChunkedBodyWithTrailer(inflate: Inflate)
    ensures !HasCompleteResponse(CHUNKED_HEAD + "\r\n\r\n" + "0\r\nX:y\r\n\r\n", "GET", true)
    ensures Parse(CHUNKED_HEAD + "\r\n\r\n" + "0\r\nX:y\r\n\r\n", inflate).text == "0\r\nX:y\r\n\r\n"
  {
    hide CHUNKED_HEAD;
    hide HasCompleteResponse;
    hide Parse;
    hide AnnouncesChunked;
    ChunkedHead();
    ZeroIsLast("0");
    NoTerminatorInNothing();
    var trailers := [Trailer("X", "y")];
    assert EncodeTrailers(trailers, Line("", "")) == "X:y\r\n\r\n" by {
      assert trailers[1..] == [];
    }
    assert Encode([], PLAIN_LAST, trailers, "") == "0\r\nX:y\r\n\r\n";
    MissedBodies(CHUNKED_HEAD, [], PLAIN_LAST, trailers, "GET", inflate);
  }

  lemma OneDigitChunk(digit: char, data: string)
    requires IsDigit(digit, 16) && |data| == DigitOf(digit) && data != ""
    ensures ValidChunk(Chunk([digit], "", data))
  {
    assert [digit][..0] == "";
    assert NatOf([digit], 16) == DigitOf(digit);
  }

  lemma OneChunk(c: Chunk)
    ensures EncodeChunks([c], "") == c.size + c.extension + "\r\n" + c.data + "\r\n"
    ensures Payload([c]) == c.data
  {
    assert [c][1..] == [];
    assert c.data + "" == c.data;
  }

  /** A last chunk written with two zeros. */
  lemma ChunkedBodyWithTwoZeros(inflate: Inflate)
    ensures !HasCompleteResponse(CHUNKED_HEAD + "\r\n\r\n" + "1\r\na\r\n00\r\n\r\n", "GET", true)
    ensures Parse(CHUNKED_HEAD + "\r\n\r\n" + "1\r\na\r\n00\r\n\r\n", inflate).text == "1\r\na\r\n00\r\n\r\n"
  {
    hide CHUNKED_HEAD;
    hide HasCompleteResponse;
    hide Parse;
    hide AnnouncesChunked;
    ChunkedHead();
    ZeroIsLast("00");
    var chunks, last := [Chunk("1", "", "a")], Chunk("00", "", "");
    OneDigitChunk('1', "a");
    OneChunk(chunks[0]);
    var front := EncodeChunks(chunks, "");
    assert |front| == 6;
    assert Find(front, TERMINATOR, 0).None?;
    BodyIs(chunks, last, []);
    hide EncodeChunks;
    assert Encode(chunks, last, [], "") == "1\r\na\r\n00\r\n\r\n";
    MissedBodies(CHUNKED_HEAD, chunks, last, [], "GET", inflate);
  }

  const TRICKY := "X:y\r\n0\r\n\r\n"
  const TRICKY_BODY := "a\r\nX:y\r\n0\r\n\r\n\r\n0\r\n\r\n"

  lemma TrickyChunks() returns (chunks: seq<Chunk>)
    ensures chunks == [Chunk("a", "", TRICKY)] && ValidChunks(chunks) && Payload(chunks) == TRICKY
    ensures EncodeChunks(chunks, "") == "a\r\n" + TRICKY + "\r\n"
    ensures Encode(chunks, PLAIN_LAST, [], "") == TRICKY_BODY
  {
    hide EncodeChunks;
    hide Encode;
    hide Line;
    chunks := [Chunk("a", "", TRICKY)];
    OneDigitChunk('a', TRICKY);
    OneChunk(chunks[0]);
    BodyIs(chunks, PLAIN_LAST, []);
    PlainEnding();
  }

  lemma PlainEnding()
    ensures Line(SizeLine(PLAIN_LAST), TrailerSection([])) == "0\r\n\r\n"
  {
  }

  lemma FirstInTricky()
    ensures Find("a\r\n" + TRICKY + "\r\n", TERMINATOR, 0) == Some(6)
  {
    var s := "a\r\nX:y\r\n0\r\n\r\n\r\n";
    assert s == "a\r\n" + TRICKY + "\r\n";
    TerminatorChars(s, 6);
    forall j | 0 <= j < 6
      ensures !OccursAt(s, TERMINATOR, j)
    {
      TerminatorChars(s, j);
    }
    hide OccursAt;
    FindIs(s, TERMINATOR, 0, 6);
  }

  lemma OneTrailerLine(text: string, rest: string, acc: Headers)
    requires text != "" && '\r' !in text
    ensures DecodeTrailers(Line(text, rest), acc) == DecodeTrailers(rest, AddField(acc, text, Trim))
  {
    hide AddField;
    SplitLineOf(text, rest);
    hide Line;
    hide SplitLine;
  }

  lemma AddXLine()
    ensures AddField(map[], "X:y", Trim) == map["x" := Field("X", "y")]
  {
    hide AddField;
    AddEncodedTrailer(map[], Trailer("X", "y"));
    assert "X" + ":" + "y" == "X:y" && ToLower("X") == "x" && Trim("y") == "y";
  }

  lemma AddNoField(acc: Headers)
    ensures AddField(acc, "0", Trim) == acc
  {
  }

  lemma KeptOfTricky()
    ensures |TRICKY| == 10 && SkipCrlf(TRICKY[..8]) == Line("X:y", Line("0", ""))
  {
    assert TRICKY[..8] == "X:y\r\n0\r\n" && TRICKY[..8][0] == 'X';
  }

  lemma StrayOfTricky()
    ensures |TRICKY| == 10 && Stray(Chunk("a", "", TRICKY), 8) == map["x" := Field("X", "y")]
  {
    KeptOfTricky();
    hide TRICKY;
    hide SkipCrlf;
    hide AddField;
    hide Line;
    var acc := map["x" := Field("X", "y")];
    AddXLine();
    AddNoField(acc);
    OneTrailerLine("X:y", Line("0", ""), map[]);
    OneTrailerLine("0", "", acc);
    assert SplitLine("").None?;
  }

  lemma CutOfTricky(inflate: Inflate)
    ensures var merged := InsertAll(HeadFields(CHUNKED_HEAD, Trim), Stray(Chunk("a", "", TRICKY), 8));
            Parse(Message(CHUNKED_HEAD, TRICKY_BODY), inflate) ==
            Response(HeadStatus(CHUNKED_HEAD), merged, BodyText("", merged, true, inflate),
                     Message(CHUNKED_HEAD, TRICKY_BODY))
  {
    ChunkedHead();
    ZeroIsLast("0");
    var chunks := TrickyChunks();
    FirstInTricky();
    SmallMessage();
    hide CHUNKED_HEAD;
    hide TRICKY;
    hide TRICKY_BODY;
    hide Parse;
    hide AnnouncesChunked;
    hide HeadFields;
    hide HeadStatus;
    hide BodyText;
    hide EncodeChunks;
    hide Encode;
    hide Stray;
    hide PartialChunk;
    hide Message;
    hide Find;
    var k, keep := ChunkedParse(CHUNKED_HEAD, chunks, PLAIN_LAST, [], inflate);
    assert k == 0 && chunks[..0] == [];
    NoChunksInFront(PartialChunk(chunks[0], keep));
    PartialLength(chunks[0], keep);
    assert keep == 8;
    assert PayloadUpTo(chunks, 0, 8) == "";
  }

  /** Data that contains the terminator: the payload is lost, and its first line comes back as a header. */
  lemma TerminatorInData(inflate: Inflate)
    ensures var response := Parse(CHUNKED_HEAD + "\r\n\r\n" + TRICKY_BODY, inflate);
            response.text == "" && Get(response.headers, "X") == Some("y") &&
              Get(HeadFields(CHUNKED_HEAD, Trim), "X").None?
    ensures exists chunks ::
              ValidChunks(chunks) && Encode(chunks, PLAIN_LAST, [], "") == TRICKY_BODY && Payload(chunks) == TRICKY
  {
    var chunks := TrickyChunks();
    hide TRICKY;
    hide TRICKY_BODY;
    hide Encode;
    hide EncodeChunks;
    hide Parse;
    CutOfTricky(inflate);
    ChunkedHead();
    StrayOfTricky();
    hide CHUNKED_HEAD;
    hide HeadFields;
    hide Stray;
    assert ToLower("X") == "x" && ToLower("Content-Encoding") == "content-encoding";
  }

  lemma SmallMessage()
    ensures |TRICKY| == 10 && |Message(CHUNKED_HEAD, TRICKY_BODY)| < SIZE_MODULUS
  {
  }

  lemma NoChunksInFront(rest: string)
    ensures EncodeChunks([], rest) == rest
  {
  }

  /** Without a trailer section, the bytes behind a chunked body are read as one. */
  lemma BytesBehindReadAsTrailer()
    ensures Decode("0\r\n\r\n" + "X:y\r\n") == ChunkDecodeResult("", map["x" := Field("X", "y")])
  {
    ZeroIsLast("0");
    assert Encode([], PLAIN_LAST, [], "X:y\r\n") == "0\r\n\r\n" + "X:y\r\n";
    assert Line("X:y", "") == "X:y\r\n";
    hide Encode;
    hide Decode;
    hide AddField;
    RoundTrip([], PLAIN_LAST, [], "X:y\r\n");
    OneTrailerLine("X:y", "", map[]);
    AddXLine();
    assert SplitLine("").None?;
  }

  // ----- bodies that the head does not delimit, and one that it does -----

  const CLOSE_HEAD := Head("Connection", "close")
  const LENGTH_HEAD := Head("Content-Length", "2")

  lemma CloseHead()
    ensures IsMessageHead(CLOSE_HEAD) && HeadStatus(CLOSE_HEAD) == 200
    ensures HeadFields(CLOSE_HEAD, Trim) == map["connection" := Field("Connection", "close")]
    ensures ConnectionClose(HeadFields(CLOSE_HEAD, Trim))
  {
    hide Head;
    hide HeadFields;
    hide HeadStatus;
    FieldsOfHead("Connection", "close");
    assert ToLower("Connection") == "connection" && ToLower("close") == "close";
    ContainsItself("close");
  }

  lemma OnlyConnection()
    ensures var h := map["connection" := Field("Connection", "close")];
            !MentionsChunked(h) && ContentLength(h) == 0 && Get(h, "Content-Encoding").None?
  {
    assert ToLower("Transfer-Encoding")[0] == 't';
    assert |ToLower("Content-Length")| == 14 && |ToLower("Content-Encoding")| == 16;
  }

  lemma CloseIsUndelimited(body: string)
    ensures var raw := Message(CLOSE_HEAD, body);
            && HeadEnd(raw) == Some(|CLOSE_HEAD|) && |CLOSE_HEAD| <= |raw| && raw[..|CLOSE_HEAD|] == CLOSE_HEAD
            && raw[|CLOSE_HEAD| + 4..] == body
            && HasCompleteResponse(raw, "GET", false) && !Delimited(raw, |CLOSE_HEAD|)
  {
    CloseHead();
    OnlyConnection();
    hide CLOSE_HEAD;
    hide HeadFields;
    hide HeadStatus;
    hide HeaderMentions;
    hide ContentLength;
    MessageParts(CLOSE_HEAD, body);
    assert !IsHead("GET") && !IsHead("");
    StopTestAgreesWithParser(Message(CLOSE_HEAD, body), "GET");
  }

  /** A response read until the connection closes: with the head in a chunk of its own, the loop stops behind it
      and the body is lost. */
  lemma BodyBehindHeadIsLost(inflate: Inflate)
    ensures var front := CLOSE_HEAD + "\r\n\r\n";
            && Received("", [front, "hi"], "GET") == (front, false)
            && Parse(front, inflate).text == "" && Parse(front + "hi", inflate).text == "hi"
  {
    var front := CLOSE_HEAD + "\r\n\r\n";
    assert |front + "hi"| < SIZE_MODULUS;
    CloseHead();
    OnlyConnection();
    CloseIsUndelimited("");
    CloseIsUndelimited("hi");
    hide CLOSE_HEAD;
    hide HasCompleteResponse;
    hide Parse;
    hide Delimited;
    hide HeadFields;
    hide HeadEnd;
    assert Message(CLOSE_HEAD, "") == front && "" + front == front;
    assert !IsHead("GET");
    UndelimitedText(front, "GET", inflate);
    UndelimitedText(front + "hi", "GET", inflate);
  }

  lemma NumberTwo()
    ensures ParseUnsigned("2", 10) == Some(2)
  {
    assert "2"[..0] == "";
    assert NatOf("2", 10) == 2;
    NumeralOfDigits("2", 10);
  }

  lemma LengthHead()
    ensures IsMessageHead(LENGTH_HEAD) && HeadStatus(LENGTH_HEAD) == 200
    ensures HeadFields(LENGTH_HEAD, Trim) == map["content-length" := Field("Content-Length", "2")]
    ensures !MentionsChunked(HeadFields(LENGTH_HEAD, Trim)) && ContentLength(HeadFields(LENGTH_HEAD, Trim)) == 2
  {
    hide Head;
    hide HeadFields;
    hide HeadStatus;
    hide ParseUnsigned;
    FieldsOfHead("Content-Length", "2");
    NumberTwo();
    LowerContentLength();
    hide ToLower;
    hide Trim;
    hide IsMessageHead;
  }

  lemma LowerContentLength()
    ensures ToLower("Content-Length") == "content-length" != ToLower("Transfer-Encoding")
  {
    assert |ToLower("Transfer-Encoding")| == 17;
  }

  /** A head with a length delimits the message. */
  lemma DelimitedByLength(head: string, body: string)
    requires IsMessageHead(head) && !StatusHasNoBody(HeadStatus(head)) && |Message(head, body)| < SIZE_MODULUS
    requires var h := HeadFields(head, Trim); !MentionsChunked(h) && ContentLength(h) == |body| > 0
    ensures var raw := Message(head, body);
            && HeadEnd(raw) == Some(|head|) && ParserEnd(raw, |head|) == Some(|raw|)
            && DelimitedMessage(raw, "GET")
  {
    hide HeadFields;
    hide HeadStatus;
    hide HeaderMentions;
    hide ContentLength;
    hide HasCompleteResponse;
    MessageParts(head, body);
    assert !IsHead("GET") && !IsHead("");
    var raw := Message(head, body);
    SmallModulo(|raw|, SIZE_MODULUS);
    assert |head| + 4 + |body| == |raw|;
    hide StopEnd;
    StopTestAgreesWithParser(raw, "GET");
  }

  /** A message that its head delimits: the segmentation theorems speak of it. */
  lemma DelimitedExample()
    ensures var raw := LENGTH_HEAD + "\r\n\r\n" + "hi";
            && DelimitedMessage(raw, "GET") && HeadEnd(raw).Some? && HeadEnd(raw).value > 0
            && HeadEnd(raw).value <= |raw| && ParserEnd(raw, HeadEnd(raw).value) == Some(|raw|)
  {
    LengthHead();
    assert |LENGTH_HEAD| < 100;
    hide LENGTH_HEAD;
    hide HeadFields;
    hide HeadStatus;
    hide HeaderMentions;
    hide ContentLength;
    hide DelimitedMessage;
    hide ParserEnd;
    hide HeadEnd;
    hide IsMessageHead;
    DelimitedByLength(LENGTH_HEAD, "hi");
    NotEmptyHead(LENGTH_HEAD);
  }

  lemma NotEmptyHead(head: string)
    requires IsMessageHead(head)
    ensures head != ""
  {
  }

  // ----- an interim response -----

  const INTERIM_HEAD := "HTTP/1.1 103 Early Hints"

  lemma InterimIsWritten()
    ensures INTERIM_HEAD == WrittenHead(103, "Early Hints", [])
  {
    assert ToDecimal(10) == "10" && ToDecimal(103) == "103";
    hide ToDecimal;
    assert INTERIM_HEAD == "HTTP/1.1 " + "103" + " " + "Early Hints" + "";
  }

  lemma InterimHead()
    ensures IsMessageHead(INTERIM_HEAD) && HeadStatus(INTERIM_HEAD) == 103
  {
    hide IsMessageHead;
    hide HeadStatus;
    hide HeadFields;
    hide WrittenHead;
    hide INTERIM_HEAD;
    InterimIsWritten();
    HeadReads(103, "Early Hints", []);
  }

  /** Early hints in front of the response, in a chunk of their own: they are taken for the response, and the next
      exchange on the connection reads the response as its own. */
  lemma EarlyHints(reply: seq<string>)
    ensures var interim, final := INTERIM_HEAD + "\r\n\r\n", LENGTH_HEAD + "\r\n\r\n" + "hi";
            && !StopsAtEnd(interim + final, "GET") && StopsAtEnd(final, "GET")
            && ReadOn("", [interim, final] + reply, "GET") == (interim, false, [final] + reply)
            && ReadOn("", [final] + reply, "GET") == (final, false, reply)
  {
    LengthHead();
    InterimHead();
    assert |LENGTH_HEAD| < 100;
    hide LENGTH_HEAD;
    hide INTERIM_HEAD;
    hide HeadFields;
    hide HeadStatus;
    hide HeaderMentions;
    hide ContentLength;
    hide IsMessageHead;
    hide HasCompleteResponse;
    hide Needed;
    hide ReadOn;
    hide Trim;
    GetIsNotHead();
    hide IsHead;
    StopsWhere(LENGTH_HEAD, "hi", "GET");
    var final := Message(LENGTH_HEAD, "hi");
    InterimIsTheAnswer(INTERIM_HEAD, final, reply, "GET", "GET");
    assert Message(INTERIM_HEAD, "") == INTERIM_HEAD + "\r\n\r\n";
    assert Message(INTERIM_HEAD, final) == INTERIM_HEAD + "\r\n\r\n" + final;
  }

  // ----- content codings -----

  /** An empty text compressed with gzip is not recovered: the compressed bytes are returned, and a gzip stream is
      never empty. */
  lemma EmptyCompressedText(h: Headers, inflate: Inflate, deflate: Deflate)
    requires Inverse(inflate, deflate) && deflate("gzip", "") != "" && Get(h, "Content-Encoding") == Some("gzip")
    ensures BodyText(deflate("gzip", ""), h, false, inflate) == deflate("gzip", "") != ""
  {
    GzipAlone(deflate);
    hide SplitEncodings;
    hide Get;
    assert JoinTokens(["gzip"]) == "gzip";
    assert ',' !in "gzip";
    hide JoinTokens;
    hide ApplyCodings;
    hide Codings;
    CodedBodyText(["gzip"], deflate("gzip", ""), "", h, false, inflate, deflate);
  }

  /** There are compressors of that kind: one that writes a mark in front of the data. */
  lemma MarkingCompressor() returns (inflate: Inflate, deflate: Deflate)
    ensures Inverse(inflate, deflate) && deflate("gzip", "") != ""
    ensures BodyText("z", map["content-encoding" := Field("Content-Encoding", "gzip")], false, inflate) == "z"
  {
    inflate := (coding, data) => if data == "" then "" else data[1..];
    deflate := (coding, data) => "z" + data;
    assert Inverse(inflate, deflate) by {
      forall c, d
        ensures inflate(c, deflate(c, d)) == d
      {
        assert ("z" + d)[1..] == d;
      }
    }
    var h := map["content-encoding" := Field("Content-Encoding", "gzip")];
    assert ToLower("Content-Encoding") == "content-encoding";
    assert deflate("gzip", "") == "z";
    EmptyCompressedText(h, inflate, deflate);
  }

  lemma GzipAlone(deflate: Deflate)
    ensures Codings(["gzip"]) == ["gzip"] && Supported(["gzip"]) && Compresses(["gzip"])
    ensures ApplyCodings(["gzip"], "", deflate) == deflate("gzip", "")
  {
    assert Trim("gzip") == "gzip" && ToLower("gzip") == "gzip" && ["gzip"][1..] == [] && ["gzip"][..0] == [];
    assert ["gzip"] + [] == ["gzip"];
    assert "gzip" in ["gzip"];
  }

  // ----- redirects -----

  lemma PrintOfPath(path: string)
    requires path != "" && path[0] == '/' && '?' !in path
    ensures var u := Url("http", "h", path, "", 0, false);
            u.Print() == "http://h" + path && WellFormed(u) && u.Target() == path && Origin(u) == "http://h"
  {
    assert "http" + "://" == "http://" && "http://" + "h" == "http://h" && path + "" == path;
  }

  lemma UrlOfPath(path: string)
    requires path != "" && path[0] == '/' && '?' !in path && |path| < 100
    ensures var u := Url("http", "h", path, "", 0, false);
            && ParseUrl("http://h" + path) == Ok(u) && WellFormed(u) && GoodUrl("http://h" + path)
            && u.Target() == path && Origin(u) == "http://h"
  {
    PrintOfPath(path);
    hide ParseUrl;
    hide WellFormed;
    hide Url.Print;
    hide Url.Target;
    hide Origin;
    ParsePrint(Url("http", "h", path, "", 0, false));
  }

  /** A scheme of http or https that is not written in lower case. */
  predicate IsOtherCase(scheme: string) {
    IsHttpScheme(ToLower(scheme)) && scheme != ToLower(scheme) && forall c :: c in scheme ==> c !in ":/?#"
  }

  lemma ParseOtherCase(scheme: string, rest: string)
    requires IsOtherCase(scheme)
    ensures ParseUrl(scheme + "://" + rest) == ParseRest(ToLower(scheme), rest)
  {
    hide ParseRest;
    hide ToLower;
    SchemeIsFound(scheme, rest);
    hide Find;
    var url := scheme + "://" + rest;
    assert url[..|scheme|] == scheme && url[|scheme| + 3..] == rest;
  }

  lemma FirstColon(scheme: string, rest: string, other: string)
    requires ':' !in scheme && ':' !in other
    requires other + "://" <= scheme + "://" + rest
    ensures scheme == other
  {
    var s := scheme + "://" + rest;
    var tail := s[|other| + 3..];
    assert s == scheme + ("://" + rest) && s == other + ("://" + tail);
    FindCharBehind(scheme, "://" + rest, ':');
    FindCharBehind(other, "://" + tail, ':');
    assert FindChar("://" + rest, ':', 0) == Some(0) && FindChar("://" + tail, ':', 0) == Some(0);
    hide FindChar;
    assert s[..|scheme|] == scheme && s[..|other|] == other;
  }

  lemma NotAbsolute(scheme: string, rest: string)
    requires IsOtherCase(scheme)
    ensures !IsAbsolute(scheme + "://" + rest)
  {
    assert ToLower("http") == "http" && ToLower("https") == "https";
    hide ToLower;
    if "http" + "://" <= scheme + "://" + rest {
      FirstColon(scheme, rest, "http");
    }
    if "https" + "://" <= scheme + "://" + rest {
      FirstColon(scheme, rest, "https");
    }
    assert "http" + "://" == "http://" && "https" + "://" == "https://";
  }

  lemma OtherCaseIsScheme(scheme: string, rest: string)
    requires IsOtherCase(scheme)
    ensures var location := scheme + "://" + rest;
            References.ParseReference(location).scheme == Some(scheme) && !("/" <= location)
  {
    var location := scheme + "://" + rest;
    assert location == scheme + (":" + ("//" + rest));
    References.SplitOwnScheme(scheme, "//" + rest);
    hide References.SplitScheme;
    hide References.SplitAuthority;
    hide References.SplitQuery;
    hide References.Until;
    StartOfReference(location);
  }

  /** With a scheme that is not written in lower case, the client understands a URL, but in a Location it appends
      it to the current directory instead of going there. */
  lemma OtherCaseScheme(url: string, scheme: string, rest: string)
    requires GoodUrl(url) && |ParseUrl(url).value.path| + |scheme + "://" + rest| < SIZE_MODULUS
    requires IsOtherCase(scheme)
    ensures var location := scheme + "://" + rest;
            && ParseUrl(location) == ParseRest(ToLower(scheme), rest)
            && ResolveRedirect(url, location).Some? && GoodUrl(ResolveRedirect(url, location).value)
            && SameOrigin(ParseUrl(url).value, ParseUrl(ResolveRedirect(url, location).value).value)
            && ResolveRedirect(url, location) != Some(References.Target(BaseOf(ParseUrl(url).value), location))
  {
    var location := scheme + "://" + rest;
    ParseOtherCase(scheme, rest);
    NotAbsolute(scheme, rest);
    OtherCaseIsScheme(scheme, rest);
    hide ParseUrl;
    hide ParseRest;
    hide IsAbsolute;
    hide IsOtherCase;
    hide ResolveRedirect;
    hide WellFormed;
    hide References.ParseReference;
    hide References.Target;
    ResolveKeepsOrigin(url, location);
    ResolvesAsRfc(url, location);
  }

  lemma OtherHostParses()
    ensures ParseRest("http", "other.org/x") == Ok(Url("http", "other.org", "/x", "", 0, false))
  {
    var other := Url("http", "other.org", "", "", 0, false);
    assert WellFormed(other);
    assert other.Authority() + "/x" + "" == "other.org/x";
    hide ParseRest;
    hide WellFormed;
    ParseRestOfParts(other, "/x", "");
  }

  lemma UpperCaseIsOther()
    ensures IsOtherCase("HTTP") && ToLower("HTTP") == "http"
  {
    assert ToLower("HTTP") == "http";
  }

  lemma UpperCaseParses()
    ensures IsOtherCase("HTTP")
    ensures ParseUrl("HTTP" + "://" + "other.org/x") == Ok(Url("http", "other.org", "/x", "", 0, false))
  {
    OtherHostParses();
    UpperCaseIsOther();
    hide IsOtherCase;
    hide ToLower;
    hide ParseUrl;
    hide ParseRest;
    ParseOtherCase("HTTP", "other.org/x");
  }

  /** For instance, the redirect to another host leads to a path on the same one. */
  lemma UpperCaseScheme(url: string)
    requires GoodUrl(url) && |ParseUrl(url).value.path| + 18 < SIZE_MODULUS
    ensures var location := "HTTP" + "://" + "other.org/x";
            && ParseUrl(location) == Ok(Url("http", "other.org", "/x", "", 0, false))
            && ResolveRedirect(url, location).Some? && GoodUrl(ResolveRedirect(url, location).value)
            && SameOrigin(ParseUrl(url).value, ParseUrl(ResolveRedirect(url, location).value).value)
  {
    UpperCaseParses();
    hide ParseUrl;
    hide ParseRest;
    hide IsOtherCase;
    hide ResolveRedirect;
    hide WellFormed;
    hide References.Target;
    OtherCaseScheme(url, "HTTP", "other.org/x");
  }

  lemma DirectoryOfAB()
    ensures Directory("/a/b") == "/a/"
  {
    assert "/a/b"[..3] == "/a/";
  }

  lemma ParseQueryOnly()
    ensures References.ParseReference("?q") == References.Reference(None, None, "", Some("q"), None)
  {
    assert References.Until("?q", ":/?#") == "" && References.Until("?q", "?#") == "";
    References.UntilIs("q", "", "#");
    assert "q" + "" == "q" && "?q"[1..] == "q" && "?q"[0..] == "?q" && "q"[1..] == "";
  }

  const BASE := Url("http", "h", "/a/b", "", 0, false)

  lemma BaseIsWellFormed()
    ensures WellFormed(BASE) && Origin(BASE) == "http://h"
    ensures BASE.path != "" && BASE.path[0] == '/'
  {
  }

  lemma BaseIsGood()
    ensures ParseUrl("http://h/a/b") == Ok(BASE) && GoodUrl("http://h/a/b") && Origin(BASE) == "http://h"
    ensures Directory(BASE.path) == "/a/" && BASE.path != "" && BASE.path[0] == '/'
  {
    hide ParseUrl;
    hide Directory;
    hide WellFormed;
    hide Origin;
    BaseIsWellFormed();
    UrlOfPath("/a/b");
    DirectoryOfAB();
    assert "http://h" + "/a/b" == "http://h/a/b";
  }

  lemma NotUrl(location: string)
    requires |location| >= 2 && location[0] != 'h' && location[1] != '/'
    ensures ReadAsPath(location)
  {
    assert "http://"[0] == 'h' && "https://"[0] == 'h';
  }

  /** A Location with a query only loses the last segment of the path. */
  lemma QueryOnlyLocation()
    ensures ResolveRedirect("http://h/a/b", "?q") == Some("http://h" + ("/a/" + "?q"))
    ensures References.Target(BASE_PARTS, "?q") == "http://h" + ("/a/b" + "?q")
  {
    BaseIsGood();
    ParseQueryOnly();
    hide BASE;
    hide ParseUrl;
    hide Directory;
    hide WellFormed;
    hide References.ParseReference;
    hide ResolveRedirect;
    NotUrl("?q");
    TextOfPath("http://h/a/b", "?q");
    hide Origin;
    TargetOfQuery(References.Reference(None, None, "", Some("q"), None));
  }

  const BASE_PARTS := References.Reference(Some("http"), Some("h"), "/a/b", None, None)

  lemma TargetOfQuery(r: References.Reference)
    requires r == References.Reference(None, None, "", Some("q"), None)
    ensures References.Recompose(References.Resolve(BASE_PARTS, r)) == "http://h" + ("/a/b" + "?q")
  {
    assert ("http" + ":") + (("//" + "h") + ("/a/b" + (("?" + "q") + ""))) == "http://h" + ("/a/b" + "?q");
  }

  lemma BasePartsAreBase()
    ensures BaseOf(BASE) == BASE_PARTS
  {
  }

  /** Dot segments are kept. */
  lemma DotSegmentsAreKept()
    ensures ResolveRedirect("http://h/a/b", "/../c") == Some("http://h" + ("" + "/../c"))
    ensures References.Target(BASE_PARTS, "/../c") != "http://h" + ("" + "/../c")
  {
    BaseIsGood();
    BasePartsAreBase();
    ParseDots();
    hide BASE;
    hide BASE_PARTS;
    hide ParseUrl;
    hide Directory;
    hide WellFormed;
    hide References.ParseReference;
    hide References.DotFree;
    hide References.Target;
    hide ResolveRedirect;
    NotUrl("/../c");
    TextOfPath("http://h/a/b", "/../c");
    ResolvesAsRfc("http://h/a/b", "/../c");
  }

  lemma DotsInPath()
    ensures !References.DotFree("/../c")
  {
    References.DotFreeSlash("/../c");
    assert "/../c"[1..] == ".." + (['/'] + "c");
    CutAtBehind("..", ['/'] + "c", '/');
    CutAtOwn('/', "c");
    assert ".." + "" == "..";
  }

  lemma UntilDots()
    ensures References.Until("/../c", "?#") == "/../c" && !("//" <= "/../c")
  {
    References.UntilIs("/../c", "", "?#");
    assert "/../c" + "" == "/../c" && "/../c"[1] == '.';
  }

  lemma ParseDots()
    ensures var r := References.ParseReference("/../c");
            r.scheme.None? && r.authority.None? && r.path == "/../c" && !References.DotFree("" + r.path)
  {
    DotsInPath();
    NoSchemeBehindSlash("/../c");
    UntilDots();
    assert "" + "/../c" == "/../c";
    hide References.Until;
    hide References.DotFree;
    hide References.SplitScheme;
    hide References.SplitQuery;
  }

  /** A fragment is taken for part of the path and sent. */
  lemma FragmentIsSent()
    ensures ParseUrl("http://h/a#f").Ok? && ParseUrl("http://h/a#f").value.Target() == "/a#f"
  {
    hide ParseUrl;
    UrlOfPath("/a#f");
    assert "http://h" + "/a#f" == "http://h/a#f";
  }

  // ----- NTLM messages -----

  /** A domain of 32768 bytes does not fit its 16-bit length. */
  lemma LongDomain(workstation: seq<Byte>)
    ensures var domain: seq<Byte> := seq(32768, _ => 0x41);
            && !Ntlm.Recovers(Ntlm.Sent(Ntlm.Type1(domain, workstation)), 16,
                              [Ntlm.Widen(domain), Ntlm.Widen(workstation)], 40)
            && Ntlm.Type1(domain, workstation)[16..24] == [0, 0, 0, 0, 40, 0, 0, 0]
  {
    hide Ntlm.Recovers;
    hide Ntlm.Sent;
    hide Ntlm.Type1;
    hide Ntlm.Widen;
    var domain: seq<Byte> := seq(32768, _ => 0x41);
    Ntlm.Type1Readable(domain, workstation);
    Ntlm.FirstDescriptor(domain, workstation);
  }

  // ----- cookies -----

  const LAST_TICK: Ticks := 0x7fff_ffff_ffff_ffff
  const COMMENT_COOKIE := Cookie("n", "v", "#d", "/", LAST_TICK, false, false, "")
  const PLAIN_COOKIE := Cookie("n", "v", "d", "/", LAST_TICK, false, false, "")

  /** A cookie whose domain starts with a number sign is not read back. */
  lemma CommentCookie(now: Ticks, later: Ticks)
    ensures MozillaFormat.Loaded(MozillaFormat.Saved([COMMENT_COOKIE], now), later) == []
    ensures MozillaFormat.ReloadedAll([COMMENT_COOKIE], now) != []
  {
    var c := COMMENT_COOKIE;
    assert MozillaFormat.HasPlainFields(c) && c.domain[0] == '#' && !c.IsExpired(now);
    hide COMMENT_COOKIE;
    hide MozillaFormat.Saved;
    hide MozillaFormat.Loaded;
    hide MozillaFormat.IsPlain;
    MozillaFormat.HeadingIsSkipped([c], now, later);
    MozillaFormat.LoadedLines([c], now, later);
    MozillaFormat.DomainOfPlain(c);
    assert MozillaFormat.Kept([c], now) == [] + MozillaFormat.Kept([], now);
  }

  /** Loading adds without looking for duplicates: a file that holds a cookie twice brings it twice. */
  lemma LoadedDuplicates(now: Ticks, later: Ticks)
    ensures var text := MozillaFormat.Saved([PLAIN_COOKIE, PLAIN_COOKIE], now);
            !CookieJars.NoDuplicates(MozillaFormat.Loaded(text, later))
  {
    var c := PLAIN_COOKIE;
    assert MozillaFormat.IsStorable(c) && !c.IsExpired(now);
    hide PLAIN_COOKIE;
    hide MozillaFormat.Saved;
    hide MozillaFormat.Loaded;
    hide MozillaFormat.IsStorable;
    hide MozillaFormat.Reloaded;
    MozillaFormat.SaveLoad([c, c], now, later);
    hide MozillaFormat.ReloadedAll;
    hide CookieJars.NoDuplicates;
    TwiceReloaded(c, now);
    TwiceIsDuplicate(MozillaFormat.Reloaded(c));
  }

  lemma TwiceReloaded(c: Cookie, now: Ticks)
    requires !c.IsExpired(now)
    ensures MozillaFormat.ReloadedAll([c, c], now) == [MozillaFormat.Reloaded(c), MozillaFormat.Reloaded(c)]
  {
    hide MozillaFormat.Reloaded;
    var d := MozillaFormat.Reloaded(c);
    assert [c, c][1..] == [c] && [c][1..] == [];
    assert MozillaFormat.ReloadedAll([c], now) == [d] + MozillaFormat.ReloadedAll([], now);
  }

  lemma TwiceIsDuplicate(d: Cookie)
    ensures !CookieJars.NoDuplicates([d, d])
  {
    assert [d, d][1..] == [d] && d in [d];
  }

  // ----- Digest challenges -----

  /** White space in front of a comma behind a quoted value: the next parameter is lost. */
  lemma SpaceBeforeComma(f: Digest.Fields)
    ensures Digest.Challenged(f, "Digest realm=\"x\" , nonce=n").realm == "x"
    ensures Digest.Challenged(f, "Digest realm=\"x\" , nonce=n").nonce == f.nonce
  {
    var ps := SpacedList();
    hide Digest.Scan;
    hide Digest.Render;
    Digest.ScanFrom(ps, false);
    assert "" + Digest.Render(ps) == Digest.Render(ps);
    SeenInSpacedList(ps);
    hide Digest.Seen;
    var challenge := "Digest " + "realm=\"x\" , nonce=n";
    assert challenge == "Digest realm=\"x\" , nonce=n";
    assert challenge[..6] == "Digest" && challenge[7..] == "realm=\"x\" , nonce=n";
    StoreTwo(f, Digest.Pair("realm", "x"), Digest.Pair(", nonce", "n"));
  }

  lemma RenderSpaced(p: Digest.Param, q: Digest.Param)
    requires p == Digest.Param("", "realm", "", "", "x", true, " ")
    requires q == Digest.Param(" ", "nonce", "", "", "n", false, "")
    ensures Digest.Render([p, q]) == "realm=\"x\" , nonce=n"
  {
    assert [p, q][1..] == [q];
    assert Digest.Back([q]) == "" && Digest.Render([q]) == " nonce=n" by {
      assert "" + "" == "" && (" " + ("nonce" + "")) + ("=" + ("" + ("n" + ""))) == " nonce=n";
    }
    assert Digest.Back([p, q]) == " , nonce=n" by {
      assert " " + ("," + " nonce=n") == " , nonce=n";
    }
    hide Digest.Back;
    assert ("" + ("realm" + "")) + ("=" + ("" + (("\"" + ("x" + "\"")) + " , nonce=n"))) == "realm=\"x\" , nonce=n";
  }

  lemma SpacedList() returns (ps: seq<Digest.Param>)
    ensures ps ==
            [Digest.Param("", "realm", "", "", "x", true, " "), Digest.Param(" ", "nonce", "", "", "n", false, "")]
    ensures Digest.AllValid(ps) && Digest.Render(ps) == "realm=\"x\" , nonce=n"
  {
    ps := [Digest.Param("", "realm", "", "", "x", true, " "), Digest.Param(" ", "nonce", "", "", "n", false, "")];
    assert ps[0].Valid() && ps[1].Valid();
    hide Digest.Param.Valid;
    hide Digest.Render;
    RenderSpaced(ps[0], ps[1]);
  }

  lemma SeenInSpacedList(ps: seq<Digest.Param>)
    requires ps ==
             [Digest.Param("", "realm", "", "", "x", true, " "), Digest.Param(" ", "nonce", "", "", "n", false, "")]
    ensures Digest.Seen(ps, false) == [Digest.Pair("realm", "x"), Digest.Pair(", nonce", "n")]
  {
    var rest := ps[1..];
    assert rest[1..] == [] && rest[0] == ps[1];
    assert "," + (" " + "nonce") == ", nonce";
    assert Digest.Seen(rest, true) == [Digest.Pair(", nonce", "n")] + [];
    assert Digest.Seen(ps, false) == [Digest.Pair("realm", "x")] + Digest.Seen(rest, true);
  }

  lemma StoreTwo(f: Digest.Fields, p: Digest.Pair, q: Digest.Pair)
    ensures Digest.StoreAll(f, [p, q]) == Digest.Store(Digest.Store(f, p), q)
  {
    hide Digest.Store;
    assert [p, q][1..] == [q] && [q][1..] == [];
    assert Digest.StoreAll(Digest.Store(f, p), [q]) == Digest.StoreAll(Digest.Store(Digest.Store(f, p), q), []);
  }

  /** A parameter name that is not in lower case is passed over. */
  lemma CapitalRealm(f: Digest.Fields)
    ensures Digest.Store(f, Digest.Pair("Realm", "x")) == f
    ensures Digest.StandardFields(f, [Digest.Pair("Realm", "x")]).realm == "x"
  {
    Digest.KeysAreLower();
    assert ToLower("Realm") == "realm";
  }

  /** And so is a challenge whose scheme name is in capitals. */
  lemma CapitalScheme(f: Digest.Fields, rest: string)
    ensures Digest.Challenged(f, "DIGEST" + rest) == f
  {
    assert ToLower("DIGEST") == "digest";
    Digest.SchemeSpelling("DIGEST", rest);
  }
}
