/** Content-Encoding in parse_response: the decoded text is the original exactly when every coding is
    supported and the original is not an empty compressed text. Section 8.4 of RFC 9110. */
module ContentCoding {
  import opened Text
  import opened HeaderMap
  import opened Http1

  // ----- the field value -----

  /** The list elements of a field value, with their surrounding white space, separated by commas. */
  function JoinTokens(tokens: seq<string>): string {
    if tokens == [] then "" else if |tokens| == 1 then tokens[0] else tokens[0] + "," + JoinTokens(tokens[1..])
  }

  /** The codings a list names: trimmed, in lower case, empty elements dropped. */
  function Codings(tokens: seq<string>): seq<string> {
    if tokens == [] then []
    else (if Trim(tokens[0]) == "" then [] else [ToLower(Trim(tokens[0]))]) + Codings(tokens[1..])
  }

  lemma {:induction false} SplitInvertsJoin(tokens: seq<string>)
    requires forall t :: t in tokens ==> ',' !in t
    ensures SplitEncodings(JoinTokens(tokens)) == Codings(tokens)
  {
    hide Trim;
    hide ToLower;
    hide FindChar;
    if tokens != [] {
      var t := tokens[0];
      assert t in tokens;
      if |tokens| == 1 {
        assert tokens[1..] == [];
        CutAtBehind(t, "", ',');
        assert t + "" == t;
        TrimOfNothing();
      } else {
        assert forall u :: u in tokens[1..] ==> u in tokens;
        SplitInvertsJoin(tokens[1..]);
        var rest := "," + JoinTokens(tokens[1..]);
        assert JoinTokens(tokens) == t + rest;
        CutAtBehind(t, rest, ',');
        assert CutAt(rest, ',') == ("", Some(JoinTokens(tokens[1..]))) by {
          CutAtOwn(',', JoinTokens(tokens[1..]));
        }
        assert t + "" == t;
      }
    }
  }

  lemma TrimOfNothing()
    ensures Trim("") == ""
  {
  }

  // ----- the codings -----

  type Deflate = (string, string) -> string

  const COMPRESSIONS := {"gzip", "deflate", "br"}

  /** The decompressors undo the compressors, and make nothing of nothing. */
  ghost predicate Inverse(inflate: Inflate, deflate: Deflate) {
    (forall c, d {:trigger deflate(c, d)} :: c in COMPRESSIONS ==> inflate(c, deflate(c, d)) == d)
    && forall c :: inflate(c, "") == ""
  }

  predicate Supported(codings: seq<string>) {
    forall c :: c in codings ==> c == "identity" || c in COMPRESSIONS
  }

  predicate Compresses(codings: seq<string>) {
    exists c :: c in codings && c in COMPRESSIONS
  }

  /** The sender's side: the codings applied in the order listed. */
  function ApplyCodings(codings: seq<string>, data: string, deflate: Deflate): string {
    if codings == [] then data
    else
      var coding, inner := codings[|codings| - 1], ApplyCodings(codings[..|codings| - 1], data, deflate);
      if coding == "identity" then inner else deflate(coding, inner)
  }

  lemma {:induction false} ApplyKeepsContent(codings: seq<string>, data: string, inflate: Inflate, deflate: Deflate)
    requires Supported(codings) && Inverse(inflate, deflate)
    ensures data != "" ==> ApplyCodings(codings, data, deflate) != ""
    ensures !Compresses(codings) ==> ApplyCodings(codings, data, deflate) == data
  {
    if codings != [] {
      var coding, front := codings[|codings| - 1], codings[..|codings| - 1];
      assert coding in codings;
      assert forall c :: c in front ==> c in codings;
      ApplyKeepsContent(front, data, inflate, deflate);
      assert coding != "identity" ==>
             inflate(coding, ApplyCodings(codings, data, deflate)) == ApplyCodings(front, data, deflate);
    }
  }

  /** Undoing supported codings gives the original back, except that an empty original behind at least one
      compression is reported as a failure. */
  lemma {:induction false} UndoInvertsApply(codings: seq<string>, data: string, inflate: Inflate, deflate: Deflate)
    requires Supported(codings) && Inverse(inflate, deflate)
    ensures UndoCodings(codings, ApplyCodings(codings, data, deflate), inflate) ==
            if data == "" && Compresses(codings) then None else Some(data)
  {
    if codings != [] {
      var coding, front := codings[|codings| - 1], codings[..|codings| - 1];
      assert coding in codings;
      assert forall c :: c in codings <==> c in front || c == coding;
      UndoInvertsApply(front, data, inflate, deflate);
      ApplyKeepsContent(front, data, inflate, deflate);
    }
  }

  /** One unsupported coding anywhere in the list makes the whole chain fail, on any data. */
  lemma {:induction false} UnsupportedFails(codings: seq<string>, data: string, inflate: Inflate)
    requires !Supported(codings)
    ensures UndoCodings(codings, data, inflate) == None
  {
    assert codings != [];
    var coding, front := codings[|codings| - 1], codings[..|codings| - 1];
    if coding == "identity" {
      assert forall c :: c in codings <==> c in front || c == coding;
      UnsupportedFails(front, data, inflate);
    } else if IsCompression(coding) && inflate(coding, data) != "" {
      assert forall c :: c in codings <==> c in front || c == coding;
      UnsupportedFails(front, inflate(coding, data), inflate);
    }
  }

  /** The text of a response whose body was coded as its Content-Encoding field says: the original, unless
      that was an empty text under compression; then, as for unsupported codings, the coded bytes. */
  lemma CodedBodyText(tokens: seq<string>, body: string, data: string, h: Headers, chunked: bool,
                      inflate: Inflate, deflate: Deflate)
    requires forall t :: t in tokens ==> ',' !in t
    requires Get(h, "Content-Encoding") == Some(JoinTokens(tokens)) && Inverse(inflate, deflate)
    requires Supported(Codings(tokens)) ==> body == ApplyCodings(Codings(tokens), data, deflate)
    ensures BodyText(body, h, chunked, inflate) ==
            if Supported(Codings(tokens)) && !(data == "" && Compresses(Codings(tokens))) then data else body
  {
    hide SplitEncodings;
    hide UndoCodings;
    hide ApplyCodings;
    hide Codings;
    hide Get;
    SplitInvertsJoin(tokens);
    if Supported(Codings(tokens)) {
      UndoInvertsApply(Codings(tokens), data, inflate, deflate);
    } else {
      UnsupportedFails(Codings(tokens), body, inflate);
    }
  }
}
