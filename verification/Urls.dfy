/** Url of url.cpp: parsing, printing, and what one undoes of the other. */
module Urls {
  import opened Text
  import opened Numbers

  /** The port is a 16-bit number; it is 0 without an explicit port. */
  datatype Url = Url(scheme: string, host: string, path: string, query: string, port: nat, hasPort: bool) {
    function Authority(): string {
      if hasPort then host + ":" + ToDecimal(port) else host
    }

    function Target(): string {
      (if path == "" then "/" else path) + (if query == "" then "" else "?" + query)
    }

    function Print(): string {
      scheme + "://" + Authority() + Target()
    }
  }

  datatype UrlError = MissingScheme | UnsupportedScheme | MissingHost | BadNumber

  datatype Result<+T> = Ok(value: T) | Err(error: UrlError)

  /** split_host_port: host, port, and whether there is one; None where std::stoi throws.
      The port is cut to 16 bits. */
  function SplitHostPort(input: string): Option<(string, nat, bool)> {
    if input == "" then Some(("", 0, false))
    else if input[0] == '[' then
      var end := FindChar(input, ']', 0);
      if end.None? then Some((input, 0, false))
      else
        var host := input[..end.value][1..];
        if end.value + 1 < |input| && input[end.value + 1] == ':' then
          var port := ParseInt(input[end.value + 2..]);
          if port.None? then None else Some((host, port.value % 0x1_0000, true))
        else Some((host, 0, false))
    else
      var colon := FindChar(input, ':', 0);
      if colon.None? then Some((input, 0, false))
      else
        var port := ParseInt(input[colon.value + 1..]);
        if port.None? then None else Some((input[..colon.value], port.value % 0x1_0000, true))
  }

  function OrEnd(k: Option<nat>, s: string): nat {
    if k.None? then |s| else k.value
  }

  function Min(a: nat, b: nat): nat {
    if a < b then a else b
  }

  predicate IsHttpScheme(scheme: string) {
    scheme == "http" || scheme == "https"
  }

  /** Url::parse; the length of the path is a 64-bit size_t difference. */
  function ParseUrl(url: string): Result<Url> {
    var schemeEnd := Find(url, "://", 0);
    if schemeEnd.None? then Err(MissingScheme)
    else
      var scheme := ToLower(url[..schemeEnd.value]);
      if !IsHttpScheme(scheme) then Err(UnsupportedScheme)
      else ParseRest(scheme, url[schemeEnd.value + 3..])
  }

  /** Authority, path and query of the text behind the scheme. */
  function Parts(rest: string): (string, string, string) {
    var slash, mark := FindChar(rest, '/', 0), FindChar(rest, '?', 0);
    (rest[..Min(OrEnd(slash, rest), OrEnd(mark, rest))],
     if slash.None? then "/" else Substr(rest, slash.value, (OrEnd(mark, rest) - slash.value) % SIZE_MODULUS),
     if mark.None? then "" else rest[mark.value + 1..])
  }

  function ParseRest(scheme: string, rest: string): Result<Url> {
    var (authority, path, query) := Parts(rest);
    match SplitHostPort(authority)
    case None => Err(BadNumber)
    case Some((host, port, hasPort)) =>
      if host == "" then Err(MissingHost) else Ok(Url(scheme, host, path, query, port, hasPort))
  }

  // ----- printing and parsing -----

  /** A host that is printed without brackets and delimited by the first ':', '/' or '?'. */
  ghost predicate PlainHost(host: string) {
    host != "" && host[0] != '[' && ':' !in host && '/' !in host && '?' !in host
  }

  ghost predicate WellFormed(u: Url) {
    && u.scheme in {"http", "https"}
    && PlainHost(u.host)
    && u.port < 0x1_0000 && (!u.hasPort ==> u.port == 0)
    && (u.path != "" ==> u.path[0] == '/' && '?' !in u.path)
  }

  lemma HttpSchemeIsLower(scheme: string)
    requires IsHttpScheme(scheme)
    ensures ToLower(scheme) == scheme && ':' !in scheme
  {
    assert ToLower("http") == "http" && ToLower("https") == "https";
  }

  lemma SchemeIsFound(scheme: string, rest: string)
    requires ':' !in scheme
    ensures Find(scheme + "://" + rest, "://", 0) == Some(|scheme|)
  {
    var url := scheme + "://" + rest;
    assert url[|scheme|..|scheme| + 3] == "://";
    forall j | 0 <= j < |scheme|
      ensures !OccursAt(url, "://", j)
    {
      assert url[j] == scheme[j] && scheme[j] in scheme;
      assert j + 3 <= |url| ==> url[j..j + 3][0] == url[j];
    }
    FindIs(url, "://", 0, |scheme|);
  }

  lemma AuthorityHasNoDelimiter(u: Url)
    requires PlainHost(u.host)
    ensures '/' !in u.Authority() && '?' !in u.Authority() && u.Authority() != ""
  {
  }

  lemma SplitWithPort(host: string, port: nat)
    requires PlainHost(host) && port < 0x1_0000
    ensures SplitHostPort(host + ":" + ToDecimal(port)) == Some((host, port, true))
  {
    var digits := ToDecimal(port);
    var text := host + (":" + digits);
    FindCharBehind(host, ":" + digits, ':');
    assert FindChar(":" + digits, ':', 0) == Some(0);
    ParseIntPrint(port);
    SmallModulo(port, 0x1_0000);
    hide FindChar;
    hide ParseInt;
    hide ToDecimal;
    assert host + ":" + digits == text && text[0] == host[0];
    assert text[..|host|] == host && text[|host| + 1..] == digits;
  }

  lemma {:induction false} SplitPlainAuthority(u: Url)
    requires WellFormed(u)
    ensures SplitHostPort(u.Authority()) == Some((u.host, u.port, u.hasPort))
  {
    if u.hasPort {
      SplitWithPort(u.host, u.port);
    } else {
      assert u.host[0..] == u.host;
      FindCharNone(u.host, ':', 0);
      hide FindChar;
      hide ParseInt;
    }
  }

  /** The parts of an authority, a path and an optional query are those parts. */
  lemma PartsOf(authority: string, path: string, query: string)
    requires '/' !in authority && '?' !in authority
    requires path != "" && path[0] == '/' && '?' !in path && |path| < SIZE_MODULUS
    requires query != "" ==> query[0] == '?'
    ensures Parts(authority + path + query) == (authority, path, if query == "" then "" else query[1..])
  {
    FirstMarks(authority, path, query);
    PartsSlices(authority, path, query);
    SmallModulo(|path|, SIZE_MODULUS);
    hide FindChar;
  }

  /** Where the first slash and the first question mark stand. */
  lemma FirstMarks(authority: string, path: string, query: string)
    requires '/' !in authority && '?' !in authority
    requires path != "" && path[0] == '/' && '?' !in path && (query != "" ==> query[0] == '?')
    ensures var rest := authority + path + query;
            && FindChar(rest, '/', 0) == Some(|authority|)
            && FindChar(rest, '?', 0) == if query == "" then None else Some(|authority| + |path|)
  {
    FirstCharIsFirst(path + query);
    FirstCharIsFirst(query);
    hide FindChar;
    assert authority + path + query == authority + (path + query);
    FindCharBehind(authority, path + query, '/');
    FindCharBehind(authority + path, query, '?');
  }

  lemma FirstCharIsFirst(s: string)
    ensures s != "" ==> FindChar(s, s[0], 0) == Some(0)
    ensures s == "" ==> forall c :: FindChar(s, c, 0) == None
  {
  }

  lemma PartsSlices(a: string, b: string, c: string)
    ensures var s, n, k := a + b + c, |a|, |a| + |b|;
            s[..n] == a && s[n..k] == b && s[k..] == c && (c != "" ==> s[k + 1..] == c[1..]) && (c == "" ==> |s| == k)
  {
    assert a + b + c == a + (b + c);
  }

  lemma ParseRestOfParts(u: Url, path: string, query: string)
    requires WellFormed(u) && path != "" && path[0] == '/' && '?' !in path
    requires query != "" ==> query[0] == '?'
    requires |path| < SIZE_MODULUS
    ensures ParseRest(u.scheme, u.Authority() + path + query) ==
            Ok(Url(u.scheme, u.host, path, if query == "" then "" else query[1..], u.port, u.hasPort))
  {
    hide SplitHostPort;
    hide Parts;
    AuthorityHasNoDelimiter(u);
    SplitPlainAuthority(u);
    PartsOf(u.Authority(), path, query);
  }

  lemma ParseOfScheme(scheme: string, rest: string)
    requires IsHttpScheme(scheme)
    ensures ParseUrl(scheme + "://" + rest) == ParseRest(scheme, rest)
  {
    hide ParseRest;
    HttpSchemeIsLower(scheme);
    SchemeIsFound(scheme, rest);
    var url := scheme + "://" + rest;
    assert url[..|scheme|] == scheme && url[|scheme| + 3..] == rest;
  }

  /** Why a text is no URL: no "://", another scheme than http and https in any letter case, no host, or a port that
      is no 32-bit number. */
  lemma ParseErrors(scheme: string, rest: string)
    requires ':' !in scheme
    ensures var r := ParseUrl(scheme + "://" + rest);
            if ToLower(scheme) !in {"http", "https"} then r == Err(UnsupportedScheme)
            else
              match SplitHostPort(Parts(rest).0)
              case None => r == Err(BadNumber)
              case Some((host, _, _)) =>
                if host == "" then r == Err(MissingHost) else r.Ok? && r.value.scheme == ToLower(scheme)
    ensures ParseUrl(scheme) == Err(MissingScheme)
  {
    hide SplitHostPort;
    hide Parts;
    SchemeIsFound(scheme, rest);
    var url := scheme + "://" + rest;
    assert url[..|scheme|] == scheme && url[|scheme| + 3..] == rest;
    if Find(scheme, "://", 0).Some? {
      ColonInFront(scheme, Find(scheme, "://", 0).value);
    }
  }

  lemma ColonInFront(s: string, k: nat)
    requires OccursAt(s, "://", k)
    ensures ':' in s
  {
    assert s[k..k + 3][0] == s[k];
  }

  /** Printing then parsing gives the URL back, an empty path being read as "/". */
  lemma ParsePrint(u: Url)
    requires WellFormed(u) && |u.path| < SIZE_MODULUS
    ensures ParseUrl(u.Print()) == Ok(u.(path := if u.path == "" then "/" else u.path))
  {
    hide ParseUrl;
    hide ParseRest;
    var path := if u.path == "" then "/" else u.path;
    var query := if u.query == "" then "" else "?" + u.query;
    ParseRestOfParts(u, path, query);
    ParseOfScheme(u.scheme, u.Authority() + path + query);
    assert u.Print() == u.scheme + "://" + (u.Authority() + path + query);
  }

  /** An authority in brackets, as for an IPv6 address, names the host between them, which may contain colons. */
  lemma SplitBracketed(host: string, port: nat)
    requires ']' !in host && port <= 65535
    ensures SplitHostPort("[" + host + "]") == Some((host, 0, false))
    ensures SplitHostPort("[" + host + "]:" + ToDecimal(port)) == Some((host, port, true))
  {
    var digits, open := ToDecimal(port), "[" + host;
    ParseIntPrint(port);
    SmallModulo(port, 0x1_0000);
    hide ParseInt;
    hide ToDecimal;
    assert open + "]" == "[" + host + "]" && open + ("]:" + digits) == "[" + host + "]:" + digits;
    FirstCharIsFirst("]");
    FirstCharIsFirst("]:" + digits);
    hide FindChar;
    FindCharBehind(open, "]", ']');
    FindCharBehind(open, "]:" + digits, ']');
    assert (open + "]")[..|open|][1..] == host && (open + ("]:" + digits))[..|open|][1..] == host;
    assert (open + ("]:" + digits))[|open| + 2..] == digits;
  }

  lemma ParseAuthority(scheme: string, authority: string, path: string)
    requires IsHttpScheme(scheme) && '/' !in authority && '?' !in authority
    requires path != "" && path[0] == '/' && '?' !in path && |path| < SIZE_MODULUS
    requires SplitHostPort(authority).Some? && SplitHostPort(authority).value.0 != ""
    ensures var (host, port, hasPort) := SplitHostPort(authority).value;
            ParseUrl(scheme + "://" + authority + path) == Ok(Url(scheme, host, path, "", port, hasPort))
  {
    hide ParseUrl;
    hide Parts;
    hide SplitHostPort;
    PartsOf(authority, path, "");
    assert authority + path + "" == authority + path;
    ParseOfScheme(scheme, authority + path);
    assert scheme + "://" + (authority + path) == scheme + "://" + authority + path;
  }

  /** So such a URL is read part by part, with or without a port. */
  lemma ParseBracketed(scheme: string, host: string, port: nat, path: string)
    requires IsHttpScheme(scheme) && port <= 65535
    requires host != "" && ']' !in host && '/' !in host && '?' !in host
    requires path != "" && path[0] == '/' && '?' !in path && |path| < SIZE_MODULUS
    ensures var authority := "[" + host + "]";
            ParseUrl(scheme + "://" + authority + path) == Ok(Url(scheme, host, path, "", 0, false))
    ensures var authority := "[" + host + "]:" + ToDecimal(port);
            ParseUrl(scheme + "://" + authority + path) == Ok(Url(scheme, host, path, "", port, true))
  {
    hide ParseUrl;
    SplitBracketed(host, port);
    hide SplitHostPort;
    assert AllDigits(ToDecimal(port), 10);
    assert !IsDigit('/', 10) && !IsDigit('?', 10);
    hide ToDecimal;
    hide IsHttpScheme;
    ParseAuthority(scheme, "[" + host + "]", path);
    ParseAuthority(scheme, "[" + host + "]:" + ToDecimal(port), path);
  }

  /** A URL text whose authority is not bracketed and whose first '?' does not stand before its first '/'. */
  ghost predicate PlainUrl(url: string) {
    var schemeEnd := Find(url, "://", 0);
    schemeEnd.Some? &&
    var rest := url[schemeEnd.value + 3..];
    var slash, mark := FindChar(rest, '/', 0), FindChar(rest, '?', 0);
    && !("[" <= rest)
    && (slash.Some? && mark.Some? ==> slash.value < mark.value)
  }

  /** What the parser accepts is well formed, so it survives printing and parsing again. */
  lemma ParsedIsWellFormed(url: string)
    requires ParseUrl(url).Ok? && PlainUrl(url) && |url| < SIZE_MODULUS
    ensures WellFormed(ParseUrl(url).value) && ParseUrl(url).value.path != ""
    ensures ParseUrl(ParseUrl(url).value.Print()) == ParseUrl(url)
  {
    var rest := url[Find(url, "://", 0).value + 3..];
    ParsedRestIsWellFormed(ToLower(url[..Find(url, "://", 0).value]), rest);
    hide ParseRest;
    ParsePrint(ParseUrl(url).value);
  }

  /** What the parts look like when no '?' stands before the first '/'. */
  lemma {:induction false} PartsShape(rest: string)
    requires |rest| < SIZE_MODULUS
    requires var slash, mark := FindChar(rest, '/', 0), FindChar(rest, '?', 0);
             slash.Some? && mark.Some? ==> slash.value < mark.value
    ensures var (authority, path, query) := Parts(rest);
            && '/' !in authority && '?' !in authority && |authority| <= |rest| && authority == rest[..|authority|]
            && path != "" && path[0] == '/' && '?' !in path && |path| < SIZE_MODULUS
  {
    var slash, mark := FindChar(rest, '/', 0), FindChar(rest, '?', 0);
    var s, m := OrEnd(slash, rest), OrEnd(mark, rest);
    NoneBeforeFirst(rest, '/', Min(s, m));
    NoneBeforeFirst(rest, '?', Min(s, m));
    NoneBeforeFirst(rest, '?', m);
    hide FindChar;
    if slash.Some? {
      SmallModulo(m - s, SIZE_MODULUS);
      PathShape(rest, s, m);
    }
  }

  lemma PathShape(rest: string, s: nat, m: nat)
    requires s < m <= |rest| && '?' !in rest[..m]
    ensures '?' !in rest[s..m] && Substr(rest, s, m - s) == rest[s..m] && rest[s..m][0] == rest[s]
  {
    assert rest[..m] == rest[..s] + rest[s..m];
  }

  lemma NoneBeforeFirst(rest: string, c: char, n: nat)
    requires n <= OrEnd(FindChar(rest, c, 0), rest)
    ensures c !in rest[..n]
    ensures FindChar(rest, c, 0).Some? ==> rest[FindChar(rest, c, 0).value] == c
  {
    FindCharFirst(rest, c, 0);
    var k := OrEnd(FindChar(rest, c, 0), rest);
    assert rest[0..k] == rest[..n] + rest[n..k];
    assert rest[0..] == rest[0..|rest|];
  }

  lemma ParsedRestIsWellFormed(scheme: string, rest: string)
    requires IsHttpScheme(scheme) && ParseRest(scheme, rest).Ok? && |rest| < SIZE_MODULUS
    requires var slash, mark := FindChar(rest, '/', 0), FindChar(rest, '?', 0);
             !("[" <= rest) && (slash.Some? && mark.Some? ==> slash.value < mark.value)
    ensures var u := ParseRest(scheme, rest).value;
            WellFormed(u) && u.path != "" && |u.path| < SIZE_MODULUS
  {
    PartsShape(rest);
    hide Parts;
    hide FindChar;
    SplitGivesPlainHost(Parts(rest).0);
    hide SplitHostPort;
  }

  lemma SplitGivesPlainHost(authority: string)
    requires SplitHostPort(authority).Some? && SplitHostPort(authority).value.0 != ""
    requires !("[" <= authority)
    requires '/' !in authority && '?' !in authority
    ensures var (host, port, hasPort) := SplitHostPort(authority).value;
            PlainHost(host) && port < 0x1_0000 && (!hasPort ==> port == 0)
  {
    FindCharFirst(authority, ':', 0);
    assert authority[0..] == authority;
    var colon := FindChar(authority, ':', 0);
    if colon.Some? {
      assert authority[0..colon.value] == authority[..colon.value];
    }
  }
}
