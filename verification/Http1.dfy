/** Response parsing of http1.cpp: head, body end, content codings. */
module Http1 {
  import opened Text
  import opened Numbers
  import opened HeaderMap
  import opened Chunked

  const HEAD_END := "\r\n\r\n"
  const TERMINATOR := "\r\n0\r\n\r\n"

  datatype Response = Response(status: int, headers: Headers, text: string, raw: string)

  /** The decompressors, by coding name; they return "" on failure. */
  type Inflate = (string, string) -> string

  // ----- head -----

  function ChopCr(line: string): string {
    if line != "" && line[|line| - 1] == '\r' then line[..|line| - 1] else line
  }

  /** What repeated std::getline calls return, each line without its trailing carriage return. */
  function Lines(s: string): seq<string>
    decreases |s|
  {
    if s == "" then []
    else
      var (line, rest) := CutAt(s, '\n');
      [ChopCr(line)] + (if rest.None? then [] else Lines(rest.value))
  }

  function DropWord(s: string): string {
    if s != "" && !IsSpace(s[0]) then DropWord(s[1..]) else s
  }

  /** `status_stream >> http_version >> status_code` */
  function StatusCode(line: string): int {
    ExtractInt(DropWord(TrimLeft(line)))
  }

  function HeadStatus(head: string): int {
    var lines := Lines(head);
    if lines == [] then 0 else StatusCode(lines[0])
  }

  /** The header map of a list of lines; both parsers build it, with different cleaning of the values. */
  function Fields(lines: seq<string>, clean: string -> string): Headers {
    if lines == [] then map[]
    else AddField(Fields(lines[..|lines| - 1], clean), lines[|lines| - 1], clean)
  }

  function HeadFields(head: string, clean: string -> string): Headers {
    var lines := Lines(head);
    if lines == [] then map[] else Fields(lines[1..], clean)
  }

  // ----- body end -----

  predicate HeaderMentions(h: Headers, name: string, word: string) {
    var v := Get(h, name);
    v.Some? && Contains(ToLower(v.value), word)
  }

  predicate MentionsChunked(h: Headers) {
    HeaderMentions(h, "Transfer-Encoding", "chunked")
  }

  /** is_connection_close */
  predicate ConnectionClose(h: Headers) {
    HeaderMentions(h, "Connection", "close")
  }

  /** parse_content_length: 0 when absent or unparsable */
  function ContentLength(h: Headers): (n: nat)
    ensures n < SIZE_MODULUS
  {
    match Get(h, "Content-Length")
    case None => 0
    case Some(v) => if ParseUnsigned(v, 10).None? then 0 else ParseUnsigned(v, 10).value
  }

  predicate IsHead(verb: string) {
    ToLower(verb) == "head"
  }

  predicate StatusHasNoBody(status: int) {
    100 <= status < 200 || status == 204 || status == 304
  }

  /** find_complete_body_end_impl; the sum is a 64-bit size_t. */
  function BodyEnd(raw: string, headEnd: nat, h: Headers, status: int, verb: string): Option<nat> {
    var bodyStart := headEnd + 4;
    if IsHead(verb) || StatusHasNoBody(status) then Some(bodyStart)
    else if MentionsChunked(h) then
      var terminator := Find(raw, TERMINATOR, bodyStart);
      if terminator.None? then None else Some(terminator.value + 5)
    else if ContentLength(h) > 0 then
      var end := (bodyStart + ContentLength(h)) % SIZE_MODULUS;
      if |raw| >= end then Some(end) else None
    else if ConnectionClose(h) then Some(|raw|)
    else None
  }

  // ----- content codings -----

  /** split_content_encodings */
  function SplitEncodings(value: string): seq<string>
    decreases |value|
  {
    if value == "" then []
    else
      var (item, rest) := CutAt(value, ',');
      (if Trim(item) == "" then [] else [ToLower(Trim(item))]) + (if rest.None? then [] else SplitEncodings(rest.value))
  }

  predicate IsCompression(coding: string) {
    coding == "gzip" || coding == "deflate" || coding == "br"
  }

  /** Undo the codings, last one first; None when one is unknown or yields nothing. */
  function UndoCodings(codings: seq<string>, data: string, inflate: Inflate): Option<string> {
    if codings == [] then Some(data)
    else
      var coding, before := codings[|codings| - 1], codings[..|codings| - 1];
      if coding == "identity" then UndoCodings(before, data, inflate)
      else if !IsCompression(coding) || inflate(coding, data) == "" then None
      else UndoCodings(before, inflate(coding, data), inflate)
  }

  /** The text of a response whose framed (and de-chunked) body is `view`. */
  function BodyText(view: string, h: Headers, chunked: bool, inflate: Inflate): string {
    match Get(h, "Content-Encoding")
    case Some(v) =>
      var plain := UndoCodings(SplitEncodings(v), view, inflate);
      if plain.None? then view else plain.value
    case None =>
      if !chunked && 0 < ContentLength(h) <= |view| then view[..ContentLength(h)] else view
  }

  // ----- parse_response -----

  function HeadEnd(raw: string): Option<nat> {
    Find(raw, HEAD_END, 0)
  }

  /** The body end as parse_response computes it: trimmed values, no method. */
  function ParserEnd(raw: string, headEnd: nat): Option<nat>
    requires headEnd <= |raw|
  {
    BodyEnd(raw, headEnd, HeadFields(raw[..headEnd], Trim), HeadStatus(raw[..headEnd]), "")
  }

  /** raw.substr(start, end - start), the difference being a 64-bit size_t */
  function View(raw: string, start: nat, end: nat): string
    requires start <= |raw|
  {
    Substr(raw, start, (end - start) % SIZE_MODULUS)
  }

  function Parse(raw: string, inflate: Inflate): Response {
    var headEnd := HeadEnd(raw);
    if headEnd.None? then Response(0, map[], raw, raw)
    else
      var start := headEnd.value + 4;
      var head := raw[..headEnd.value];
      if head == "" then Response(0, map[], raw[start..], raw)
      else
        var status, h := HeadStatus(head), HeadFields(head, Trim);
        var end := ParserEnd(raw, headEnd.value);
        if end.None? then Response(status, h, raw[start..], raw)
        else if MentionsChunked(h) then
          var decoded := Decode(View(raw, start, end.value));
          var merged := InsertAll(h, decoded.trailers);
          Response(status, merged, BodyText(decoded.decoded, merged, true, inflate), raw)
        else
          Response(status, h, BodyText(View(raw, start, end.value), h, false, inflate), raw)
  }

  lemma ParseKeepsRaw(raw: string, inflate: Inflate)
    ensures Parse(raw, inflate).raw == raw
  {
    hide HeadFields;
    hide HeadStatus;
    hide Decode;
    hide BodyText;
    hide ParserEnd;
  }

  // ----- the loops of parse_response -----

  lemma LinesAt(head: string, pos: nat)
    requires pos < |head|
    ensures var end := FindChar(head, '\n', pos);
            Lines(head[pos..]) ==
            if end.None? then [ChopCr(head[pos..])] else [ChopCr(head[pos..end.value])] + Lines(head[end.value + 1..])
  {
    hide CutAt;
    hide ChopCr;
    CutAtPosition(head, '\n', pos);
  }

  /** The getline loops over the head: the status line, then one field per line with a colon. */
  method ReadHead(head: string) returns (statusLine: Option<string>, headers: Headers)
    ensures statusLine.None? <==> Lines(head) == []
    ensures statusLine.Some? ==> statusLine.value == Lines(head)[0]
    ensures headers == HeadFields(head, Trim)
  {
    hide Lines;
    hide ChopCr;
    hide AddField;
    statusLine, headers := None, map[];
    LinesOfNothing();
    var pos := 0;
    assert head[0..] == head;
    ghost var done, left := [], Lines(head);
    while pos < |head|
      invariant pos <= |head|
      invariant Lines(head) == done + left && left == Lines(head[pos..])
      invariant statusLine.None? <==> done == []
      invariant done == [] ==> pos == 0 && headers == map[]
      invariant done != [] ==> statusLine.value == done[0] && headers == Fields(done[1..], Trim)
    {
      LinesAt(head, pos);
      var end := FindChar(head, '\n', pos);
      var line := ChopCr(if end.None? then head[pos..] else head[pos..end.value]);
      if statusLine.None? {
        statusLine := Some(line);
      } else {
        FieldsGrow(done, line);
        headers := AddField(headers, line, Trim);
      }
      pos := if end.None? then |head| else end.value + 1;
      assert head[|head|..] == "";
      left := Lines(head[pos..]);
      assert done + ([line] + left) == (done + [line]) + left;
      assert end.None? ==> [line] + left == [line];
      done := done + [line];
    }
    assert head[pos..] == "";
    assert done + [] == done;
  }

  lemma FieldsGrow(done: seq<string>, line: string)
    requires done != []
    ensures Fields((done + [line])[1..], Trim) == AddField(Fields(done[1..], Trim), line, Trim)
  {
    hide AddField;
    assert (done + [line])[1..] == done[1..] + [line];
    assert (done[1..] + [line])[..|done| - 1] == done[1..];
  }

  lemma LinesOfNothing()
    ensures Lines("") == []
  {
  }

  /** split_content_encodings */
  method SplitContentEncodings(value: string) returns (result: seq<string>)
    ensures result == SplitEncodings(value)
  {
    hide Trim;
    hide ToLower;
    hide SplitEncodings;
    result := [];
    var start := 0;
    assert value[0..] == value;
    ghost var rest := SplitEncodings(value);
    while start < |value|
      invariant start <= |value|
      invariant rest == SplitEncodings(value[start..])
      invariant SplitEncodings(value) == result + rest
    {
      SplitEncodingsAt(value, start);
      var comma := FindChar(value, ',', start);
      var token := Trim(if comma.None? then value[start..] else value[start..comma.value]);
      ghost var parsed := if token == "" then [] else [ToLower(token)];
      ghost var left := if comma.None? then [] else SplitEncodings(value[comma.value + 1..]);
      assert result + (parsed + left) == (result + parsed) + left;
      if token != "" {
        result := result + [ToLower(token)];
      }
      assert SplitEncodings(value) == result + left;
      if comma.None? { return; }
      start, rest := comma.value + 1, left;
    }
    SplitEncodingsOfNothing();
    assert value[start..] == "";
  }

  lemma SplitEncodingsOfNothing()
    ensures SplitEncodings("") == []
  {
  }

  lemma SplitEncodingsAt(value: string, start: nat)
    requires start < |value|
    ensures var comma := FindChar(value, ',', start);
            var token := Trim(if comma.None? then value[start..] else value[start..comma.value]);
            SplitEncodings(value[start..]) ==
            (if token == "" then [] else [ToLower(token)])
            + (if comma.None? then [] else SplitEncodings(value[comma.value + 1..]))
  {
    hide Trim;
    hide ToLower;
    hide CutAt;
    CutAtPosition(value, ',', start);
  }

  /** The loop over the codings in reverse order. */
  method UndoContentEncodings(codings: seq<string>, data: string, inflate: Inflate) returns (plain: Option<string>)
    ensures plain == UndoCodings(codings, data, inflate)
  {
    var decoded, i := data, |codings|;
    assert codings[..|codings|] == codings;
    while i > 0
      invariant 0 <= i <= |codings|
      invariant UndoCodings(codings, data, inflate) == UndoCodings(codings[..i], decoded, inflate)
    {
      var coding := codings[i - 1];
      assert codings[..i][..i - 1] == codings[..i - 1];
      i := i - 1;
      if coding == "identity" { continue; }
      if !IsCompression(coding) { return None; }
      var next := inflate(coding, decoded);
      if next == "" { return None; }
      decoded := next;
    }
    plain := Some(decoded);
  }

  /** parse_response */
  method ParseResponse(raw: string, inflate: Inflate) returns (response: Response)
    ensures response == Parse(raw, inflate)
  {
    hide Lines;
    hide Fields;
    hide Decode;
    var headEnd := Find(raw, HEAD_END, 0);
    if headEnd.None? { return Response(0, map[], raw, raw); }
    var head, body := raw[..headEnd.value], raw[headEnd.value + 4..];
    var statusLine, headers := ReadHead(head);
    LinesEmptyIff(head);
    if statusLine.None? { return Response(0, map[], body, raw); }
    var status := StatusCode(statusLine.value);
    var end := BodyEnd(raw, headEnd.value, headers, status, "");
    if end.None? { return Response(status, headers, body, raw); }

    var view := View(raw, headEnd.value + 4, end.value);
    var chunked := false;
    if MentionsChunked(headers) {
      var decoded := DecodeChunkedWithTrailers(view);
      view, chunked := decoded.decoded, true;
      headers := InsertAll(headers, decoded.trailers);
    }
    var coding := Get(headers, "Content-Encoding");
    if coding.Some? {
      var codings := SplitContentEncodings(coding.value);
      var plain := UndoContentEncodings(codings, view, inflate);
      return Response(status, headers, if plain.Some? then plain.value else view, raw);
    }
    var length := ContentLength(headers);
    if !chunked && length > 0 && |view| >= length {
      return Response(status, headers, view[..length], raw);
    }
    return Response(status, headers, view, raw);
  }

  lemma LinesEmptyIff(head: string)
    ensures Lines(head) == [] <==> head == ""
  {
  }
}
