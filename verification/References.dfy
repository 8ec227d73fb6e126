/** URI references as RFC 3986 defines them: their parts (appendix B), recomposition (section 5.3) and
    resolution (section 5.2). */
module References {
  import opened Text

  datatype Reference = Reference(scheme: Option<string>, authority: Option<string>, path: string,
                                 query: Option<string>, fragment: Option<string>)

  // ----- parts -----

  /** The longest prefix without any of the characters in `stops`. */
  function Until(s: string, stops: string): (r: string)
    ensures r <= s && (forall c :: c in r ==> c !in stops)
    ensures |r| < |s| ==> s[|r|] in stops
  {
    if s == "" || s[0] in stops then "" else [s[0]] + Until(s[1..], stops)
  }

  lemma {:induction false} UntilIs(s: string, rest: string, stops: string)
    requires forall c :: c in s ==> c !in stops
    requires rest != "" ==> rest[0] in stops
    ensures Until(s + rest, stops) == s
  {
    if s == "" {
      assert s + rest == rest;
    } else {
      assert (s + rest)[0] == s[0] && s[0] in s && (s + rest)[1..] == s[1..] + rest;
      UntilIs(s[1..], rest, stops);
    }
  }

  function SplitScheme(s: string): (Option<string>, string) {
    var head := Until(s, ":/?#");
    if head != "" && |head| < |s| && s[|head|] == ':' then (Some(head), s[|head| + 1..]) else (None, s)
  }

  function SplitAuthority(s: string): (Option<string>, string) {
    if "//" <= s then
      var a := Until(s[2..], "/?#");
      (Some(a), s[2..][|a|..])
    else (None, s)
  }

  function SplitQuery(s: string): (Option<string>, string) {
    if s != "" && s[0] == '?' then
      var q := Until(s[1..], "#");
      (Some(q), s[1..][|q|..])
    else (None, s)
  }

  function ParseReference(s: string): Reference {
    var (scheme, rest) := SplitScheme(s);
    var (authority, left) := SplitAuthority(rest);
    var path := Until(left, "?#");
    var (query, end) := SplitQuery(left[|path|..]);
    Reference(scheme, authority, path, query, if end == "" then None else Some(end[1..]))
  }

  function SchemePart(scheme: Option<string>): string {
    if scheme.None? then "" else scheme.value + ":"
  }

  function AuthorityPart(authority: Option<string>): string {
    if authority.None? then "" else "//" + authority.value
  }

  function QueryPart(query: Option<string>): string {
    if query.None? then "" else "?" + query.value
  }

  function FragmentPart(fragment: Option<string>): string {
    if fragment.None? then "" else "#" + fragment.value
  }

  /** Section 5.3. */
  function Recompose(r: Reference): string {
    SchemePart(r.scheme) + (AuthorityPart(r.authority) + (r.path + (QueryPart(r.query) + FragmentPart(r.fragment))))
  }

  lemma RecomposeScheme(s: string)
    ensures var (scheme, rest) := SplitScheme(s); SchemePart(scheme) + rest == s
  {
    hide Until;
  }

  lemma RecomposeAuthority(s: string)
    ensures var (authority, rest) := SplitAuthority(s); AuthorityPart(authority) + rest == s
  {
    hide Until;
    if "//" <= s {
      assert s == "//" + s[2..];
      var a := Until(s[2..], "/?#");
      assert s[2..] == a + s[2..][|a|..];
    }
  }

  lemma RecomposeQuery(s: string)
    ensures var (query, rest) := SplitQuery(s); QueryPart(query) + rest == s
    ensures s != "" && s[0] in "?#" ==> SplitQuery(s).1 == "" || SplitQuery(s).1[0] == '#'
  {
    hide Until;
    if s != "" && s[0] == '?' {
      assert s == "?" + s[1..];
      var q := Until(s[1..], "#");
      assert s[1..] == q + s[1..][|q|..];
    }
  }

  /** Taking a reference apart and putting it together again is the identity, on every text. */
  lemma RecomposeParse(s: string)
    ensures Recompose(ParseReference(s)) == s
  {
    hide Until;
    hide SplitScheme;
    hide SplitAuthority;
    hide SplitQuery;
    hide SchemePart;
    hide AuthorityPart;
    hide QueryPart;
    var (scheme, rest) := SplitScheme(s);
    var (authority, left) := SplitAuthority(rest);
    var path := Until(left, "?#");
    var tail := left[|path|..];
    var (query, end) := SplitQuery(tail);
    RecomposeScheme(s);
    RecomposeAuthority(rest);
    RecomposeQuery(tail);
    assert left == path + tail;
    assert tail != "" ==> tail[0] == left[|path|];
    if tail == "" {
      NoQuery();
    } else if end != "" {
      assert end == "#" + end[1..];
    }
  }

  lemma NoQuery()
    ensures SplitQuery("") == (None, "")
  {
  }

  /** Only a fragment holds a number sign. */
  lemma NoHashInParts(s: string)
    requires ParseReference(s).fragment.None?
    ensures '#' !in s
  {
    var (scheme, rest) := SplitScheme(s);
    var (authority, left) := SplitAuthority(rest);
    var path := Until(left, "?#");
    var (query, end) := SplitQuery(left[|path|..]);
    RecomposeParse(s);
    NoHashInScheme(s);
    NoHashInAuthority(rest);
    NoHashInQuery(left[|path|..]);
    assert '#' !in path;
    hide Until;
    hide SplitScheme;
    hide SplitAuthority;
    hide SplitQuery;
    hide SchemePart;
    hide AuthorityPart;
    hide QueryPart;
    NoneInFour(SchemePart(scheme), AuthorityPart(authority), path, QueryPart(query), '#');
  }

  lemma NoneInFour(a: string, b: string, c: string, d: string, mark: char)
    requires mark !in a && mark !in b && mark !in c && mark !in d
    ensures mark !in a + (b + (c + (d + "")))
  {
  }

  lemma NoHashInScheme(s: string)
    ensures '#' !in SchemePart(SplitScheme(s).0)
  {
    assert '#' !in Until(s, ":/?#");
    hide Until;
  }

  lemma NoHashInAuthority(s: string)
    ensures '#' !in AuthorityPart(SplitAuthority(s).0)
  {
    if "//" <= s {
      assert '#' !in Until(s[2..], "/?#");
    }
    hide Until;
  }

  lemma NoHashInQuery(s: string)
    ensures '#' !in QueryPart(SplitQuery(s).0)
  {
    if s != "" {
      assert '#' !in Until(s[1..], "#");
    }
    hide Until;
  }

  /** The parts of a text put together from parts in the ordinary way. */
  lemma ParseRecomposed(scheme: string, authority: string, path: string, query: Option<string>)
    requires scheme != "" && (forall c :: c in scheme ==> c !in ":/?#")
    requires forall c :: c in authority ==> c !in "/?#"
    requires path != "" && path[0] == '/' && '?' !in path && '#' !in path
    requires query.Some? ==> '#' !in query.value
    ensures var r := Reference(Some(scheme), Some(authority), path, query, None);
            ParseReference(Recompose(r)) == r
  {
    var q := QueryPart(query);
    var left := path + q;
    var rest := "//" + (authority + left);
    var s := scheme + (":" + rest);
    assert Recompose(Reference(Some(scheme), Some(authority), path, query, None)) == s by {
      assert (scheme + ":") + (("//" + authority) + (path + (q + ""))) == s;
    }
    SplitOwnScheme(scheme, rest);
    SplitOwnAuthority(authority, left);
    assert q != "" ==> q[0] == '?';
    UntilIs(path, q, "?#");
    assert left[|path|..] == q;
    SplitOwnQuery(query);
    hide SplitScheme;
    hide SplitAuthority;
    hide SplitQuery;
    hide Until;
    hide Recompose;
  }

  lemma SplitOwnScheme(scheme: string, rest: string)
    requires scheme != "" && (forall c :: c in scheme ==> c !in ":/?#")
    ensures SplitScheme(scheme + (":" + rest)) == (Some(scheme), rest)
  {
    UntilIs(scheme, ":" + rest, ":/?#");
    hide Until;
    assert (scheme + (":" + rest))[|scheme| + 1..] == rest;
  }

  lemma SplitOwnAuthority(authority: string, left: string)
    requires forall c :: c in authority ==> c !in "/?#"
    requires left != "" && left[0] == '/'
    ensures SplitAuthority("//" + (authority + left)) == (Some(authority), left)
  {
    UntilIs(authority, left, "/?#");
    hide Until;
    assert ("//" + (authority + left))[2..] == authority + left && (authority + left)[|authority|..] == left;
  }

  lemma SplitOwnQuery(query: Option<string>)
    requires query.Some? ==> '#' !in query.value
    ensures SplitQuery(QueryPart(query)) == (query, "")
  {
    if query.Some? {
      assert ("?" + query.value)[1..] == query.value && query.value + "" == query.value;
      UntilIs(query.value, "", "#");
    }
  }

  // ----- dot segments -----

  /** No segment is "." or "..". */
  predicate DotFree(path: string)
    decreases |path|
  {
    var (segment, rest) := CutAt(path, '/');
    segment != "." && segment != ".." && (rest.None? || DotFree(rest.value))
  }

  /** The output buffer without its last segment and the slash in front of it. */
  function DropSegment(output: string): (r: string)
    ensures |r| <= |output|
  {
    if output == "" then ""
    else if output[|output| - 1] == '/' then output[..|output| - 1]
    else DropSegment(output[..|output| - 1])
  }

  function Rest(after: Option<string>): string {
    if after.None? then "" else "/" + after.value
  }

  /** The loop of section 5.2.4, on its input and output buffers. */
  function RemoveDotsFrom(input: string, output: string): string
    decreases |input|
  {
    if input == "" then output
    else if input[0] == '/' then
      var (segment, after) := CutAt(input[1..], '/');
      if segment == "." then RemoveDotsFrom(if after.None? then "/" else Rest(after), output)
      else if segment == ".." then RemoveDotsFrom(if after.None? then "/" else Rest(after), DropSegment(output))
      else RemoveDotsFrom(Rest(after), output + ("/" + segment))
    else
      var (segment, after) := CutAt(input, '/');
      if segment == "." || segment == ".." then RemoveDotsFrom(OrEmpty(after), output)
      else RemoveDotsFrom(Rest(after), output + segment)
  }

  function RemoveDots(path: string): string {
    RemoveDotsFrom(path, "")
  }

  /** A segment of one or two dots in front. */
  predicate StartsWithDots(path: string) {
    var segment := CutAt(path, '/').0;
    segment == "." || segment == ".."
  }

  lemma DotFreeRest(path: string)
    ensures DotFree(path) <==> !StartsWithDots(path) && DotFree(Rest(CutAt(path, '/').1))
  {
    var (segment, rest) := CutAt(path, '/');
    if rest.Some? {
      CutAtOwn('/', rest.value);
      assert ['/'] + rest.value == "/" + rest.value;
    } else {
      DotFreeNothing();
    }
  }

  lemma DotFreeNothing()
    ensures DotFree("")
  {
    assert CutAt("", '/') == ("", None);
  }

  lemma DotFreeSlash(path: string)
    requires path != "" && path[0] == '/'
    ensures DotFree(path) <==> DotFree(path[1..])
  {
    CutAtOwn('/', path[1..]);
    assert ['/'] + path[1..] == path;
  }

  lemma CutLength(path: string)
    ensures var (segment, rest) := CutAt(path, '/'); path == segment + Rest(rest)
  {
    CutAtRejoins(path, '/');
  }

  lemma DotFreeSegment(input: string)
    requires input != "" && input[0] == '/'
    ensures var (segment, after) := CutAt(input[1..], '/');
            && input == "/" + (segment + Rest(after))
            && (DotFree(input) <==> segment != "." && segment != ".." && DotFree(Rest(after)))
  {
    CutLength(input[1..]);
    DotFreeSlash(input);
    DotFreeRest(input[1..]);
    hide CutAt;
    hide DotFree;
    assert input == "/" + input[1..];
  }

  /** Removing dot segments shortens a path exactly when it has some, and otherwise leaves it as it is. */
  lemma {:induction false} RemoveDotsFromIs(input: string, output: string)
    ensures |RemoveDotsFrom(input, output)| <= |output| + |input|
    ensures DotFree(input) ==> RemoveDotsFrom(input, output) == output + input
    ensures !DotFree(input) ==> |RemoveDotsFrom(input, output)| < |output| + |input|
    decreases |input|
  {
    hide CutAt;
    hide DotFree;
    if input == "" {
      assert output + "" == output;
      DotFreeNothing();
    } else if input[0] == '/' {
      var body := input[1..];
      var (segment, after) := CutAt(body, '/');
      DotFreeSegment(input);
      if segment == "." {
        RemoveDotsFromIs(if after.None? then "/" else Rest(after), output);
      } else if segment == ".." {
        RemoveDotsFromIs(if after.None? then "/" else Rest(after), DropSegment(output));
      } else {
        RemoveDotsFromIs(Rest(after), output + ("/" + segment));
        Regroup(output, "/", segment, Rest(after));
      }
    } else {
      var (segment, after) := CutAt(input, '/');
      CutLength(input);
      DotFreeRest(input);
      assert segment != "" by {
        FirstOfCut(input);
      }
      if segment == "." || segment == ".." {
        RemoveDotsFromIs(OrEmpty(after), output);
      } else {
        RemoveDotsFromIs(Rest(after), output + segment);
        assert (output + segment) + Rest(after) == output + (segment + Rest(after));
      }
    }
  }

  lemma Regroup(a: string, b: string, c: string, d: string)
    ensures (a + (b + c)) + d == a + (b + (c + d))
  {
  }

  lemma FirstOfCut(s: string)
    requires s != "" && s[0] != '/'
    ensures CutAt(s, '/').0 != ""
  {
  }

  lemma RemoveDotsIs(path: string)
    ensures RemoveDots(path) == path <==> DotFree(path)
    ensures |RemoveDots(path)| <= |path|
  {
    RemoveDotsFromIs(path, "");
    assert "" + path == path;
  }

  // ----- resolution -----

  function UpToLastSlash(path: string): string {
    if path == "" then "" else if path[|path| - 1] == '/' then path else UpToLastSlash(path[..|path| - 1])
  }

  /** Section 5.2.3. */
  function Merge(base: Reference, path: string): string {
    if base.authority.Some? && base.path == "" then "/" + path else UpToLastSlash(base.path) + path
  }

  /** Section 5.2.2. */
  function Resolve(base: Reference, r: Reference): Reference {
    if r.scheme.Some? then r.(path := RemoveDots(r.path))
    else if r.authority.Some? then r.(scheme := base.scheme, path := RemoveDots(r.path))
    else
      r.(scheme := base.scheme, authority := base.authority,
         path := if r.path == "" then base.path
                 else if r.path[0] == '/' then RemoveDots(r.path)
                 else RemoveDots(Merge(base, r.path)),
         query := if r.path == "" && r.query.None? then base.query else r.query)
  }

  /** The target of a reference, as text. */
  function Target(base: Reference, reference: string): string {
    Recompose(Resolve(base, ParseReference(reference)))
  }
}
