/** The chunked transfer coding: the incremental decoder of http1.cpp against the grammar of
    section 7.1 of RFC 9112. Lengths are unbounded naturals. */
module Chunked {
  import opened Text
  import opened Numbers
  import opened HeaderMap

  datatype ChunkDecodeResult = ChunkDecodeResult(decoded: string, trailers: Headers)

  // ----- what the decoder computes, as functions of the bytes still to be read -----

  function ParseChunkSize(line: string): Option<nat> {
    var value := Trim(CutAt(line, ';').0);
    if value == "" then None else ParseUnsigned(value, 16)
  }

  /** The text before the first CRLF and the text behind it. */
  function SplitLine(rest: string): (r: Option<(string, string)>)
    ensures r.Some? ==> |rest| == |r.value.0| + 2 + |r.value.1|
  {
    var end := Find(rest, CRLF, 0);
    if end.None? then None else Some((rest[..end.value], rest[end.value + 2..]))
  }

  /** The payload collected by the chunk loop and the bytes it leaves unread. */
  function DecodeChunks(rest: string): (string, string)
    decreases |rest|
  {
    match SplitLine(rest)
    case None => ("", rest)
    case Some((line, data)) =>
      match ParseChunkSize(line)
      case None => ("", rest)
      case Some(n) =>
        if n == 0 || n > |data| then ("", data)
        else if !(CRLF <= data[n..]) then (data[..n], data[n..])
        else
          var (more, left) := DecodeChunks(data[n + 2..]);
          (data[..n] + more, left)
  }

  function SkipCrlf(rest: string): string {
    if CRLF <= rest then rest[2..] else rest
  }

  function DecodeTrailers(rest: string, trailers: Headers): Headers
    decreases |rest|
  {
    match SplitLine(rest)
    case None => trailers
    case Some((line, left)) => if line == "" then trailers else DecodeTrailers(left, AddField(trailers, line, Trim))
  }

  function Decode(body: string): ChunkDecodeResult {
    var (payload, left) := DecodeChunks(body);
    ChunkDecodeResult(payload, DecodeTrailers(SkipCrlf(left), map[]))
  }

  // ----- the decoder itself -----

  lemma SplitLineAt(body: string, pos: nat)
    requires pos <= |body|
    ensures var end := Find(body, CRLF, pos);
            match SplitLine(body[pos..])
            case None => end.None?
            case Some((line, left)) => end.Some? && line == body[pos..end.value] && left == body[end.value + 2..]
  {
    assert body == body[..pos] + body[pos..];
    FindBehind(body[..pos], body[pos..], CRLF);
  }

  lemma CrlfAt(body: string, pos: nat)
    requires pos <= |body|
    ensures OccursAt(body, CRLF, pos) <==> CRLF <= body[pos..]
  {
    if pos + 2 <= |body| {
      assert body[pos..][..2] == body[pos..pos + 2];
    }
  }

  lemma DecodeChunksUnfolds(rest: string, n: nat)
    requires SplitLine(rest).Some?
    requires ParseChunkSize(SplitLine(rest).value.0) == Some(n)
    ensures var data := SplitLine(rest).value.1;
            DecodeChunks(rest) ==
            if n == 0 || n > |data| then ("", data)
            else if !(CRLF <= data[n..]) then (data[..n], data[n..])
            else (data[..n] + DecodeChunks(data[n + 2..]).0, DecodeChunks(data[n + 2..]).1)
  {
    hide ParseChunkSize;
    hide SplitLine;
  }

  /** One turn of the chunk loop, in the loop's own positions. */
  lemma DecodeChunksAt(body: string, pos: nat)
    requires pos <= |body|
    ensures var end := Find(body, CRLF, pos);
            (end.Some? ==> end.value + 2 <= |body|) &&
            if end.None? || ParseChunkSize(body[pos..end.value]).None? then
              DecodeChunks(body[pos..]) == ("", body[pos..])
            else
              var n, start := ParseChunkSize(body[pos..end.value]).value, end.value + 2;
              if n == 0 || start + n > |body| then DecodeChunks(body[pos..]) == ("", body[start..])
              else if !OccursAt(body, CRLF, start + n) then
                DecodeChunks(body[pos..]) == (body[start..start + n], body[start + n..])
              else
                start + n + 2 <= |body| &&
                var (more, left) := DecodeChunks(body[start + n + 2..]);
                DecodeChunks(body[pos..]) == (body[start..start + n] + more, left)
  {
    hide ParseChunkSize;
    hide SplitLine;
    hide DecodeChunks;
    SplitLineAt(body, pos);
    var end := Find(body, CRLF, pos);
    if end.None? || ParseChunkSize(body[pos..end.value]).None? {
      DecodeChunksStops(body[pos..]);
    } else {
      var n, start := ParseChunkSize(body[pos..end.value]).value, end.value + 2;
      DecodeChunksUnfolds(body[pos..], n);
      if start + n <= |body| {
        SliceOfRest(body, start, n);
        CrlfAt(body, start + n);
        if OccursAt(body, CRLF, start + n) {
          SliceOfRest(body, start, n + 2);
        }
      }
    }
  }

  lemma DecodeChunksStops(rest: string)
    requires SplitLine(rest).None? || ParseChunkSize(SplitLine(rest).value.0).None?
    ensures DecodeChunks(rest) == ("", rest)
  {
    hide SplitLine;
    hide ParseChunkSize;
  }

  /** The first loop of decode_chunked_with_trailers. */
  method DecodeChunkLoop(body: string) returns (decoded: string, pos: nat)
    ensures pos <= |body| && DecodeChunks(body) == (decoded, body[pos..])
  {
    hide DecodeChunks;
    hide ParseChunkSize;
    hide OccursAt;
    decoded, pos := "", 0;
    assert body[0..] == body;
    ghost var left := DecodeChunks(body);
    assert "" + left.0 == left.0;
    while pos < |body|
      invariant pos <= |body|
      invariant left == DecodeChunks(body[pos..])
      invariant DecodeChunks(body) == (decoded + left.0, left.1)
    {
      DecodeChunksAt(body, pos);
      assert decoded + "" == decoded;
      var lineEnd := Find(body, CRLF, pos);
      if lineEnd.None? { return; }
      var chunkSize := ParseChunkSize(body[pos..lineEnd.value]);
      if chunkSize.None? { return; }
      pos := lineEnd.value + 2;
      if chunkSize.value == 0 { return; }
      if pos + chunkSize.value > |body| { return; }
      ghost var data, before := body[pos..pos + chunkSize.value], decoded;
      decoded := decoded + body[pos..pos + chunkSize.value];
      pos := pos + chunkSize.value;
      if !OccursAt(body, CRLF, pos) { return; }
      pos := pos + 2;
      left := DecodeChunks(body[pos..]);
      assert before + (data + left.0) == decoded + left.0;
    }
    DecodeChunksAt(body, pos);
    assert decoded + "" == decoded;
  }

  /** The second loop of decode_chunked_with_trailers. */
  method DecodeTrailerLoop(body: string, start: nat) returns (trailers: Headers)
    requires start <= |body|
    ensures trailers == DecodeTrailers(body[start..], map[])
  {
    hide SplitLine;
    trailers := map[];
    var pos := start;
    while pos < |body|
      invariant pos <= |body|
      invariant DecodeTrailers(body[start..], map[]) == DecodeTrailers(body[pos..], trailers)
    {
      SplitLineAt(body, pos);
      var lineEnd := Find(body, CRLF, pos);
      if lineEnd.None? { return; }
      if lineEnd.value == pos { return; }
      var line := body[pos..lineEnd.value];
      var colon := FindChar(line, ':', 0);
      if colon.Some? {
        trailers := Put(trailers, line[..colon.value], Trim(line[colon.value + 1..]));
      }
      pos := lineEnd.value + 2;
    }
    SplitLineAt(body, pos);
  }

  /** decode_chunked_with_trailers */
  method DecodeChunkedWithTrailers(body: string) returns (result: ChunkDecodeResult)
    ensures result == Decode(body)
  {
    var decoded, pos := DecodeChunkLoop(body);
    CrlfAt(body, pos);
    if pos < |body| && OccursAt(body, CRLF, pos) {
      assert body[pos..][2..] == body[pos + 2..];
      pos := pos + 2;
    }
    var trailers := DecodeTrailerLoop(body, pos);
    result := ChunkDecodeResult(decoded, trailers);
  }

  // ----- the grammar of section 7.1 of RFC 9112 -----

  /** chunk-size in hexadecimal, optional white space and extension, and the data. */
  datatype Chunk = Chunk(size: string, extension: string, data: string)

  ghost predicate ValidExtension(extension: string) {
    '\r' !in extension && AllSpace(CutAt(extension, ';').0)
  }

  /** The size line announces exactly `n` bytes. */
  ghost predicate Announces(size: string, extension: string, n: nat) {
    size != "" && AllDigits(size, 16) && NatOf(size, 16) == n < SIZE_MODULUS && ValidExtension(extension)
  }

  ghost predicate ValidChunk(c: Chunk) {
    c.data != "" && Announces(c.size, c.extension, |c.data|)
  }

  ghost predicate ValidChunks(chunks: seq<Chunk>) {
    forall i :: 0 <= i < |chunks| ==> ValidChunk(chunks[i])
  }

  ghost predicate ValidLast(last: Chunk) {
    last.data == "" && Announces(last.size, last.extension, 0)
  }

  datatype Trailer = Trailer(name: string, value: string)

  ghost predicate ValidTrailers(trailers: seq<Trailer>) {
    forall i :: 0 <= i < |trailers| ==>
      ':' !in trailers[i].name && '\r' !in trailers[i].name && '\r' !in trailers[i].value
  }

  /** `text` as one line in front of `rest`. */
  function Line(text: string, rest: string): string {
    text + CRLF + rest
  }

  /** *chunk, in front of `rest` */
  function EncodeChunks(chunks: seq<Chunk>, rest: string): string {
    if chunks == [] then rest
    else Line(chunks[0].size + chunks[0].extension, Line(chunks[0].data, EncodeChunks(chunks[1..], rest)))
  }

  /** *( field-line CRLF ), in front of `rest` */
  function EncodeTrailers(trailers: seq<Trailer>, rest: string): string {
    if trailers == [] then rest
    else Line(trailers[0].name + ":" + trailers[0].value, EncodeTrailers(trailers[1..], rest))
  }

  /** chunked-body = *chunk last-chunk trailer-section CRLF, in front of `rest` */
  function Encode(chunks: seq<Chunk>, last: Chunk, trailers: seq<Trailer>, rest: string): string {
    EncodeChunks(chunks, Line(last.size + last.extension, EncodeTrailers(trailers, Line("", rest))))
  }

  function Payload(chunks: seq<Chunk>): string {
    if chunks == [] then "" else chunks[0].data + Payload(chunks[1..])
  }

  function TrailerMap(trailers: seq<Trailer>): Headers {
    if trailers == [] then map[]
    else
      var t := trailers[|trailers| - 1];
      Put(TrailerMap(trailers[..|trailers| - 1]), t.name, Trim(t.value))
  }

  // ----- decoding inverts the grammar -----

  lemma ParseAnnounced(size: string, extension: string, n: nat)
    requires Announces(size, extension, n)
    ensures '\r' !in size + extension
    ensures ParseChunkSize(size + extension) == Some(n)
  {
    assert ';' !in size && '\r' !in size;
    assert size[0] in size && size[|size| - 1] in size;
    hide CutAt;
    hide Numeral;
    CutAtBehind(size, extension, ';');
    TrimTail(size, CutAt(extension, ';').0);
    NumeralOfDigits(size, 16);
  }

  lemma TrimTail(s: string, tail: string)
    requires s != "" && !IsSpace(s[0]) && !IsSpace(s[|s| - 1])
    requires AllSpace(tail)
    ensures Trim(s + tail) == s
  {
    assert TrimLeft(s + tail) == s + tail;
    if tail == "" {
      assert s + tail == s;
    } else {
      assert (s + tail)[..|s + tail| - 1] == s + tail[..|tail| - 1];
      TrimTail(s, tail[..|tail| - 1]);
    }
  }

  lemma SplitLineOf(line: string, left: string)
    requires '\r' !in line
    ensures SplitLine(Line(line, left)) == Some((line, left))
  {
    assert "" + line + CRLF + left == Line(line, left);
    FindCrlf("", line, left);
    LineSlices(line, left);
  }

  lemma DecodeOneChunk(c: Chunk, more: string)
    requires ValidChunk(c)
    ensures DecodeChunks(Line(c.size + c.extension, Line(c.data, more)))
            == (c.data + DecodeChunks(more).0, DecodeChunks(more).1)
  {
    hide ParseChunkSize;
    hide SplitLine;
    hide DecodeChunks;
    var text, data := c.size + c.extension, Line(c.data, more);
    ParseAnnounced(c.size, c.extension, |c.data|);
    SplitLineOf(text, data);
    DecodeChunksUnfolds(Line(text, data), |c.data|);
    LineSlices(c.data, more);
  }

  lemma LineSlices(text: string, rest: string)
    ensures var s, n := Line(text, rest), |text|;
            |s| == n + 2 + |rest| && s[..n] == text && s[n..] == CRLF + rest && CRLF <= s[n..] && s[n + 2..] == rest
  {
    assert Line(text, rest) == text + (CRLF + rest);
  }

  lemma DecodeLastChunk(last: Chunk, left: string)
    requires ValidLast(last)
    ensures DecodeChunks(Line(last.size + last.extension, left)) == ("", left)
  {
    ParseAnnounced(last.size, last.extension, 0);
    SplitLineOf(last.size + last.extension, left);
  }

  lemma {:induction false} DecodeChunksInverts(chunks: seq<Chunk>, rest: string)
    requires ValidChunks(chunks)
    ensures DecodeChunks(EncodeChunks(chunks, rest)) == (Payload(chunks) + DecodeChunks(rest).0, DecodeChunks(rest).1)
  {
    hide DecodeChunks;
    hide Line;
    hide ValidChunk;
    if chunks == [] {
      assert "" + DecodeChunks(rest).0 == DecodeChunks(rest).0;
    } else {
      DecodeChunksInverts(chunks[1..], rest);
      DecodeOneChunk(chunks[0], EncodeChunks(chunks[1..], rest));
      assert chunks[0].data + (Payload(chunks[1..]) + DecodeChunks(rest).0) == Payload(chunks) + DecodeChunks(rest).0;
    }
  }

  lemma AddEncodedTrailer(acc: Headers, t: Trailer)
    requires ':' !in t.name
    ensures AddField(acc, t.name + ":" + t.value, Trim) == Put(acc, t.name, Trim(t.value))
  {
    var line := t.name + ":" + t.value;
    assert line == t.name + (":" + t.value);
    FindCharBehind(t.name, ":" + t.value, ':');
    assert line[..|t.name|] == t.name && line[|t.name| + 1..] == t.value;
  }

  lemma DecodeOneTrailer(acc: Headers, t: Trailer, left: string)
    requires ':' !in t.name && '\r' !in t.name && '\r' !in t.value
    ensures DecodeTrailers(Line(t.name + ":" + t.value, left), acc)
            == DecodeTrailers(left, Put(acc, t.name, Trim(t.value)))
  {
    SplitLineOf(t.name + ":" + t.value, left);
    AddEncodedTrailer(acc, t);
  }

  lemma NoMoreTrailers(acc: Headers, extra: string)
    ensures DecodeTrailers(Line("", extra), acc) == acc
  {
    hide Line;
    hide SplitLine;
    SplitLineOf("", extra);
  }

  lemma {:induction false} DecodeTrailersInverts(done: seq<Trailer>, trailers: seq<Trailer>, extra: string)
    requires ValidTrailers(trailers)
    ensures DecodeTrailers(EncodeTrailers(trailers, Line("", extra)), TrailerMap(done)) == TrailerMap(done + trailers)
    decreases |trailers|
  {
    hide DecodeTrailers;
    hide Line;
    hide Put;
    if trailers == [] {
      NoMoreTrailers(TrailerMap(done), extra);
      assert done + trailers == done;
    } else {
      var t := trailers[0];
      DecodeOneTrailer(TrailerMap(done), t, EncodeTrailers(trailers[1..], Line("", extra)));
      assert (done + [t])[..|done|] == done;
      assert (done + [t]) + trailers[1..] == done + trailers;
      DecodeTrailersInverts(done + [t], trailers[1..], extra);
    }
  }

  lemma SkipCrlfInFrontOfTrailers(trailers: seq<Trailer>, extra: string)
    requires ValidTrailers(trailers)
    ensures SkipCrlf(EncodeTrailers(trailers, Line("", extra))) ==
            if trailers == [] then extra else EncodeTrailers(trailers, Line("", extra))
  {
    if trailers == [] {
      assert Line("", extra) == CRLF + extra;
      assert (CRLF + extra)[2..] == extra;
    } else {
      var t := trailers[0];
      NoCrlfInFront(t.name + ":" + t.value, EncodeTrailers(trailers[1..], Line("", extra)));
    }
  }

  lemma NoCrlfInFront(text: string, rest: string)
    requires text != "" && '\r' !in text
    ensures !(CRLF <= Line(text, rest))
  {
    LineSlices(text, rest);
    assert Line(text, rest)[0] == text[0] && text[0] in text;
  }

  /** Decoding the encoding of any chunk list and trailer list, followed by any bytes, gives the payload;
      the trailers come back too, except that without a trailer section the decoder reads the bytes behind
      the message as one. */
  lemma {:induction false} RoundTrip(chunks: seq<Chunk>, last: Chunk, trailers: seq<Trailer>, extra: string)
    requires ValidChunks(chunks) && ValidLast(last) && ValidTrailers(trailers)
    ensures Decode(Encode(chunks, last, trailers, extra)) ==
            ChunkDecodeResult(Payload(chunks),
                              if trailers == [] then DecodeTrailers(extra, map[]) else TrailerMap(trailers))
    ensures extra == "" ==>
              Decode(Encode(chunks, last, trailers, extra)) == ChunkDecodeResult(Payload(chunks), TrailerMap(trailers))
  {
    var left := EncodeTrailers(trailers, Line("", extra));
    DecodeChunksInverts(chunks, Line(last.size + last.extension, left));
    DecodeLastChunk(last, left);
    assert Payload(chunks) + "" == Payload(chunks);
    SkipCrlfInFrontOfTrailers(trailers, extra);
    DecodeTrailersInverts([], trailers, extra);
    assert [] + trailers == trailers;
    assert SplitLine("").None?;
  }

  // ----- chunks as a sender writes them -----

  predicate IsHexDigits(digits: string) {
    digits == HEX_LOWER || digits == HEX_UPPER
  }

  /** A size in hexadecimal, in either letter case, is read as the number it stands for. */
  lemma ParseChunkSizeHex(n: nat, digits: string)
    requires n < SIZE_MODULUS && IsHexDigits(digits)
    ensures ParseChunkSize(ToHex(n, digits)) == Some(n)
  {
    ToHexReads(n, digits);
    hide ToHex;
    hide NatOf;
    hide HEX_LOWER;
    hide HEX_UPPER;
    var size := ToHex(n, digits);
    assert FindChar("", ';', 0).None?;
    assert ValidExtension("");
    ParseAnnounced(size, "", n);
    assert size + "" == size;
  }

  /** Each piece of data behind its length in hexadecimal, in front of `rest`. */
  function Written(pieces: seq<string>, digits: string, rest: string): string
    requires |digits| == 16
  {
    if pieces == [] then rest
    else ToHex(|pieces[0]|, digits) + "\r\n" + pieces[0] + "\r\n" + Written(pieces[1..], digits, rest)
  }

  function HexChunks(pieces: seq<string>, digits: string): seq<Chunk>
    requires |digits| == 16
  {
    if pieces == [] then []
    else [Chunk(ToHex(|pieces[0]|, digits), "", pieces[0])] + HexChunks(pieces[1..], digits)
  }

  ghost predicate CanSend(pieces: seq<string>) {
    forall piece :: piece in pieces ==> 0 < |piece| < SIZE_MODULUS
  }

  lemma HexChunk(data: string, digits: string)
    requires IsHexDigits(digits) && 0 < |data| < SIZE_MODULUS
    ensures ValidChunk(Chunk(ToHex(|data|, digits), "", data))
  {
    hide ToHex;
    hide NatOf;
    ToHexReads(|data|, digits);
    assert FindChar("", ';', 0).None?;
  }

  lemma {:induction false} HexChunksAre(pieces: seq<string>, digits: string, rest: string)
    requires IsHexDigits(digits) && CanSend(pieces)
    ensures ValidChunks(HexChunks(pieces, digits)) && Payload(HexChunks(pieces, digits)) == Concat(pieces)
    ensures EncodeChunks(HexChunks(pieces, digits), rest) == Written(pieces, digits, rest)
    decreases |pieces|
  {
    hide ToHex;
    hide ValidChunk;
    if pieces != [] {
      assert pieces[0] in pieces;
      HexChunk(pieces[0], digits);
      HexChunksAre(pieces[1..], digits, rest);
      assert HexChunks(pieces, digits)[1..] == HexChunks(pieces[1..], digits);
      LinesOfChunk(ToHex(|pieces[0]|, digits), pieces[0], Written(pieces[1..], digits, rest));
    }
  }

  lemma LinesOfChunk(size: string, data: string, rest: string)
    ensures Line(size + "", Line(data, rest)) == size + "\r\n" + data + "\r\n" + rest
  {
    assert size + "" == size;
  }

  /** Pieces of any lengths, sent with their lengths in hexadecimal, come back. */
  lemma WrittenRoundTrip(pieces: seq<string>, digits: string)
    requires IsHexDigits(digits) && CanSend(pieces)
    ensures Decode(Written(pieces, digits, "0\r\n\r\n")) == ChunkDecodeResult(Concat(pieces), map[])
  {
    hide Decode;
    hide Written;
    var last, chunks := Chunk("0", "", ""), HexChunks(pieces, digits);
    ZeroSize();
    HexChunksAre(pieces, digits, "0\r\n\r\n");
    RoundTrip(chunks, last, [], "");
    assert Line("0" + "", EncodeTrailers([], Line("", ""))) == "0\r\n\r\n";
  }

  lemma ZeroSize()
    ensures ValidLast(Chunk("0", "", ""))
  {
    assert "0"[..0] == "";
    assert FindChar("", ';', 0).None?;
    assert NatOf("0", 16) == 0;
  }

  /** Trailers are looked up case-insensitively and the last one of a name wins. */
  function LastValue(trailers: seq<Trailer>, key: string): Option<string> {
    if trailers == [] then None
    else
      var t := trailers[|trailers| - 1];
      if ToLower(t.name) == ToLower(key) then Some(Trim(t.value)) else LastValue(trailers[..|trailers| - 1], key)
  }

  lemma {:induction false} TrailerLookup(trailers: seq<Trailer>, key: string)
    ensures Get(TrailerMap(trailers), key) == LastValue(trailers, key)
  {
    if trailers != [] {
      TrailerLookup(trailers[..|trailers| - 1], key);
    }
  }

  // ----- decoding on a stream that is still growing -----

  lemma SplitLineGrows(rest: string, more: string)
    requires SplitLine(rest).Some?
    ensures SplitLine(rest + more) == Some((SplitLine(rest).value.0, SplitLine(rest).value.1 + more))
  {
    FindStable(rest, more, CRLF, 0);
    var k := Find(rest, CRLF, 0).value;
    assert (rest + more)[..k] == rest[..k] && (rest + more)[k + 2..] == rest[k + 2..] + more;
  }

  /** What has been decoded is never taken back when more bytes arrive, on any input. */
  lemma {:induction false} DecodedPrefixGrows(body: string, more: string)
    ensures DecodeChunks(body).0 <= DecodeChunks(body + more).0
    ensures Decode(body).decoded <= Decode(body + more).decoded
    decreases |body|
  {
    hide ParseChunkSize;
    hide SplitLine;
    if SplitLine(body).None? || ParseChunkSize(SplitLine(body).value.0).None? {
      return;
    }
    SplitLineGrows(body, more);
    var data := SplitLine(body).value.1;
    var n := ParseChunkSize(SplitLine(body).value.0).value;
    DecodeChunksUnfolds(body, n);
    DecodeChunksUnfolds(body + more, n);
    if 0 < n <= |data| {
      assert (data + more)[..n] == data[..n] && (data + more)[n..] == data[n..] + more;
      if CRLF <= data[n..] {
        assert (data + more)[n + 2..] == data[n + 2..] + more;
        DecodedPrefixGrows(data[n + 2..], more);
      }
    }
  }
}
