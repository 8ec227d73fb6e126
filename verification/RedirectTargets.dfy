/** resolve_redirect of session.cpp: what it keeps of the current URL, and when it agrees with RFC 3986. */
module RedirectTargets {
  import opened Text
  import opened Numbers
  import opened Urls
  import References

  predicate IsAbsolute(location: string) {
    "http://" <= location || "https://" <= location
  }

  /** base_path.substr(0, base_path.find_last_of('/') + 1), or "/" without a slash */
  function Directory(path: string): string {
    if path == "" then "/" else if path[|path| - 1] == '/' then path else Directory(path[..|path| - 1])
  }

  /** None where parsing the base URL throws. */
  function ResolveRedirect(baseUrl: string, location: string): Option<string> {
    if IsAbsolute(location) then Some(location)
    else
      var parsed := ParseUrl(baseUrl);
      if parsed.Err? then None
      else
        var base := parsed.value;
        if "//" <= location then Some(base.scheme + ":" + location)
        else if "/" <= location then Some(base.scheme + "://" + base.Authority() + location)
        else Some(base.scheme + "://" + base.Authority()
                  + Directory(if base.path == "" then "/" else base.path) + location)
  }

  /** Where a chain of redirects leads. */
  function Follow(url: string, locations: seq<string>): Option<string>
    decreases |locations|
  {
    if locations == [] then Some(url)
    else
      var next := ResolveRedirect(url, locations[0]);
      if next.None? then None else Follow(next.value, locations[1..])
  }

  /** A Location that the code reads as a path: it starts neither with "http://" or "https://" in lower case, nor
      with "//". It may still name another host. */
  predicate ReadAsPath(location: string) {
    !("http://" <= location) && !("https://" <= location) && !("//" <= location)
  }

  ghost predicate SameOrigin(u: Url, v: Url) {
    u.scheme == v.scheme && u.host == v.host && u.port == v.port && u.hasPort == v.hasPort
  }

  /** `url` parses to a well-formed URL. */
  ghost predicate GoodUrl(url: string) {
    ParseUrl(url).Ok? && WellFormed(ParseUrl(url).value) && ParseUrl(url).value.path != ""
  }

  lemma {:induction false} DirectoryShape(path: string)
    requires path != "" && path[0] == '/' && '?' !in path
    ensures var d := Directory(path); |d| <= |path| && d != "" && d[0] == '/' && '?' !in d
  {
    if path[|path| - 1] != '/' {
      assert |path| > 1;
      DirectoryShape(path[..|path| - 1]);
    }
  }

  /** The directory of a path is what is left without its last segment. */
  lemma {:induction false} DirectoryIsAllButLast(path: string) returns (last: string)
    requires path != "" && path[0] == '/'
    ensures path == Directory(path) + last && '/' !in last
    ensures Directory(path) != "" && Directory(path)[|Directory(path)| - 1] == '/'
    ensures Directory(path) == path <==> path[|path| - 1] == '/'
  {
    last := "";
    if path[|path| - 1] != '/' {
      assert |path| > 1;
      last := DirectoryIsAllButLast(path[..|path| - 1]);
      last := last + [path[|path| - 1]];
    }
  }

  /** The printed authority followed by any text that starts with '/' parses back to the same origin, with that
      text as path and query. */
  lemma {:induction false} OriginOfPath(u: Url, tail: string)
    requires WellFormed(u) && tail != "" && tail[0] == '/' && |tail| < SIZE_MODULUS
    ensures var v := u.(path := CutAt(tail, '?').0, query := OrEmpty(CutAt(tail, '?').1));
            && ParseUrl(u.scheme + "://" + (u.Authority() + tail)) == Ok(v)
            && WellFormed(v) && v.path != "" && SameOrigin(u, v)
  {
    hide ParseUrl;
    hide ParseRest;
    var (path, rest) := CutAt(tail, '?');
    var query := if rest.None? then "" else "?" + rest.value;
    CutAtRejoins(tail, '?');
    assert path != "" && path[0] == '/';
    ParseRestOfParts(u, path, query);
    assert u.Authority() + path + query == u.Authority() + tail;
    ParseOfScheme(u.scheme, u.Authority() + tail);
  }

  /** A Location read as a path replaces the path and the query; a relative one goes into the directory of the
      current path. */
  lemma {:induction false} ResolvedParts(url: string, location: string)
    requires GoodUrl(url) && ReadAsPath(location) && |ParseUrl(url).value.path| + |location| < SIZE_MODULUS
    ensures var (base, next) := (ParseUrl(url).value, ResolveRedirect(url, location));
            var (path, query) := CutAt(location, '?');
            && next.Some? && GoodUrl(next.value)
            && ParseUrl(next.value) ==
               Ok(base.(path := (if "/" <= location then "" else Directory(base.path)) + path, query := OrEmpty(query)))
  {
    hide ParseUrl;
    hide Url.Authority;
    hide CutAt;
    var base := ParseUrl(url).value;
    if "/" <= location {
      OriginOfPath(base, location);
      assert base.scheme + "://" + base.Authority() + location == base.scheme + "://" + (base.Authority() + location);
      assert "" + CutAt(location, '?').0 == CutAt(location, '?').0;
    } else {
      DirectoryShape(base.path);
      var d := Directory(base.path);
      OriginOfPath(base, d + location);
      CutAtBehind(d, location, '?');
      assert base.scheme + "://" + base.Authority() + d + location
             == base.scheme + "://" + (base.Authority() + (d + location));
    }
  }

  lemma ResolveKeepsOrigin(url: string, location: string)
    requires GoodUrl(url) && ReadAsPath(location) && |ParseUrl(url).value.path| + |location| < SIZE_MODULUS
    ensures var next := ResolveRedirect(url, location);
            next.Some? && GoodUrl(next.value) && SameOrigin(ParseUrl(url).value, ParseUrl(next.value).value)
  {
    hide ParseUrl;
    hide ResolveRedirect;
    ResolvedParts(url, location);
  }

  // ----- against section 5.2 of RFC 3986 -----

  /** The parts of a base URL as Url::parse records them, which does not tell an empty query from none. */
  function BaseOf(u: Url): References.Reference {
    References.Reference(Some(u.scheme), Some(u.Authority()), u.path,
                         if u.query == "" then None else Some(u.query), None)
  }

  /** These are the parts that the RFC sees in the URL as printed, exactly when it has no fragment: a base must
      have none (section 5.1). */
  lemma BaseIsParsed(u: Url)
    requires WellFormed(u) && u.path != ""
    ensures References.ParseReference(u.Print()) == BaseOf(u) <==> '#' !in u.Print()
  {
    hide Url.Print;
    hide Url.Authority;
    hide References.ParseReference;
    hide References.Recompose;
    hide WellFormed;
    RecomposedBase(u);
    if '#' !in u.Print() {
      NoHashInUrl(u);
      BaseParts(u);
    } else if References.ParseReference(u.Print()) == BaseOf(u) {
      References.NoHashInParts(u.Print());
    }
  }

  lemma BaseParts(u: Url)
    requires WellFormed(u) && u.path != "" && '#' !in u.Authority() && '#' !in u.path && '#' !in u.query
    ensures References.ParseReference(References.Recompose(BaseOf(u))) == BaseOf(u)
  {
    AuthorityHasNoDelimiter(u);
    hide Url.Authority;
    References.ParseRecomposed(u.scheme, u.Authority(), u.path, BaseOf(u).query);
  }

  lemma RecomposedBase(u: Url)
    requires u.path != ""
    ensures References.Recompose(BaseOf(u)) == u.Print()
  {
    hide Url.Authority;
    var q := if u.query == "" then "" else "?" + u.query;
    assert (u.scheme + ":") + (("//" + u.Authority()) + (u.path + (q + "")))
           == u.scheme + "://" + u.Authority() + (u.path + q);
  }

  lemma NoHashInUrl(u: Url)
    requires '#' !in u.Print() && u.path != ""
    ensures '#' !in u.Authority() && '#' !in u.path && '#' !in u.query
  {
    hide Url.Authority;
  }

  /** What follows the path of a reference. */
  function TailOf(r: References.Reference): string {
    References.QueryPart(r.query) + References.FragmentPart(r.fragment)
  }

  function Origin(u: Url): string {
    u.scheme + "://" + u.Authority()
  }

  lemma AbsoluteHasScheme(location: string)
    requires "http://" <= location || "https://" <= location
    ensures References.ParseReference(location).scheme.Some?
  {
    var scheme := if "http://" <= location then "http" else "https";
    var rest := location[|scheme|..];
    assert location == scheme + rest && rest[0] == ':';
    References.UntilIs(scheme, rest, ":/?#");
    hide References.Until;
  }

  lemma NoSchemeBehindSlash(s: string)
    requires "/" <= s
    ensures References.SplitScheme(s) == (None, s)
  {
    assert s[0] in ":/?#";
  }

  /** How a reference starts, and which parts it therefore has. */
  lemma StartOfReference(location: string)
    ensures var r := References.ParseReference(location);
            && (r.scheme.Some? ==> !("/" <= location))
            && (r.scheme.None? ==> (r.authority.Some? <==> "//" <= location))
            && (r.scheme.None? && r.authority.None? ==>
                  location == r.path + TailOf(r) && ("/" <= location <==> "/" <= r.path))
  {
    hide References.Until;
    References.RecomposeParse(location);
    var r := References.ParseReference(location);
    if "/" <= location {
      NoSchemeBehindSlash(location);
    }
    hide References.ParseReference;
    assert r.scheme.None? && r.authority.None? ==>
      References.Recompose(r) == r.path + (References.QueryPart(r.query) + References.FragmentPart(r.fragment));
  }

  /** When the code resolves a Location as the RFC does. */
  predicate ResolvesRightly(u: Url, location: string) {
    var r := References.ParseReference(location);
    if r.scheme.Some? then ("http://" <= location || "https://" <= location) && References.DotFree(r.path)
    else if r.authority.Some? then References.DotFree(r.path)
    else if r.path == "" then EndsInDirectory(u.path) && (r.query.Some? || u.query == "")
    else References.DotFree((if r.path[0] == '/' then "" else Directory(u.path)) + r.path)
  }

  predicate EndsInDirectory(path: string) {
    path != "" && path[|path| - 1] == '/'
  }

  /** A reference with another path is another text. */
  lemma OtherPath(r: References.Reference, path: string)
    ensures |References.Recompose(r.(path := path))| - |path| == |References.Recompose(r)| - |r.path|
    ensures References.Recompose(r.(path := path)) == References.Recompose(r) <==> path == r.path
  {
    hide References.SchemePart;
    hide References.AuthorityPart;
    hide References.QueryPart;
    hide References.FragmentPart;
    var front := References.SchemePart(r.scheme) + References.AuthorityPart(r.authority);
    var tail := References.QueryPart(r.query) + References.FragmentPart(r.fragment);
    Around(References.SchemePart(r.scheme), References.AuthorityPart(r.authority), path, tail);
    Around(References.SchemePart(r.scheme), References.AuthorityPart(r.authority), r.path, tail);
    SameMiddle(front, path, r.path, tail);
  }

  lemma Around(a: string, b: string, c: string, d: string)
    ensures a + (b + (c + d)) == (a + b) + c + d
  {
  }

  lemma SameMiddle(front: string, a: string, b: string, tail: string)
    ensures front + a + tail == front + b + tail <==> a == b
  {
    if front + a + tail == front + b + tail {
      assert (front + a + tail)[|front|..|front| + |a|] == a;
      assert (front + b + tail)[|front|..|front| + |b|] == b;
    }
  }

  /** A Location with its own scheme. */
  lemma ResolveWithScheme(url: string, location: string)
    requires GoodUrl(url) && References.ParseReference(location).scheme.Some?
    ensures ResolveRedirect(url, location) == Some(References.Target(BaseOf(ParseUrl(url).value), location)) <==>
            ResolvesRightly(ParseUrl(url).value, location)
  {
    hide ParseUrl;
    hide WellFormed;
    hide Url.Authority;
    hide Directory;
    hide References.ParseReference;
    hide References.RemoveDots;
    hide References.Recompose;
    hide References.DotFree;
    var r := References.ParseReference(location);
    StartOfReference(location);
    References.RecomposeParse(location);
    References.RemoveDotsIs(r.path);
    OtherPath(r, References.RemoveDots(r.path));
  }

  /** A Location with an authority but no scheme. */
  lemma ResolveWithAuthority(url: string, location: string)
    requires GoodUrl(url)
    requires References.ParseReference(location).scheme.None? && References.ParseReference(location).authority.Some?
    ensures ResolveRedirect(url, location) == Some(References.Target(BaseOf(ParseUrl(url).value), location)) <==>
            ResolvesRightly(ParseUrl(url).value, location)
  {
    hide ParseUrl;
    hide WellFormed;
    hide References.ParseReference;
    hide References.RemoveDots;
    hide References.DotFree;
    var u, r := ParseUrl(url).value, References.ParseReference(location);
    if IsAbsolute(location) {
      AbsoluteHasScheme(location);
    }
    StartOfReference(location);
    References.RecomposeParse(location);
    References.RemoveDotsIs(r.path);
    var here := r.(scheme := Some(u.scheme));
    OtherPath(here, References.RemoveDots(r.path));
    WithScheme(r, u.scheme);
    hide References.Recompose;
  }

  lemma WithScheme(r: References.Reference, scheme: string)
    requires r.scheme.None?
    ensures References.Recompose(r.(scheme := Some(scheme))) == scheme + ":" + References.Recompose(r)
  {
    hide References.AuthorityPart;
    hide References.QueryPart;
    hide References.FragmentPart;
    var more := References.AuthorityPart(r.authority)
      + (r.path + (References.QueryPart(r.query) + References.FragmentPart(r.fragment)));
    assert "" + more == more;
  }

  /** A Location without scheme and authority, as text behind the origin. */
  lemma TextBehindOrigin(u: Url, r: References.Reference)
    requires r.scheme == Some(u.scheme) && r.authority == Some(u.Authority())
    ensures References.Recompose(r) == Origin(u) + (r.path + TailOf(r))
  {
    hide Url.Authority;
    hide References.QueryPart;
    hide References.FragmentPart;
    var more := r.path + (References.QueryPart(r.query) + References.FragmentPart(r.fragment));
    assert (u.scheme + ":") + (("//" + u.Authority()) + more) == Origin(u) + more by {
      assert ":" + "//" == "://";
    }
  }

  lemma DirectoryIsUpToSlash(path: string)
    requires path != "" && path[0] == '/'
    ensures Directory(path) == References.UpToLastSlash(path)
  {
    if path[|path| - 1] != '/' {
      DirectoryIsUpToSlash(path[..|path| - 1]);
    }
  }

  lemma SameBehind(origin: string, a: string, b: string, tail: string)
    ensures origin + (a + tail) == origin + (b + tail) <==> a == b
  {
    assert origin + (a + tail) == origin + a + tail && origin + (b + tail) == origin + b + tail;
    SameMiddle(origin, a, b, tail);
  }

  lemma Longer(origin: string, a: string, last: string, more: string, tail: string)
    ensures origin + (a + tail) == origin + ((a + last) + (more + tail)) <==> last == "" && more == ""
  {
    if last == "" && more == "" {
      assert a + last == a && more + tail == tail;
    } else {
      assert |origin + (a + tail)| < |origin + ((a + last) + (more + tail))|;
    }
  }

  /** What the code makes of a Location that it reads as a path. */
  lemma TextOfPath(url: string, location: string)
    requires GoodUrl(url) && ReadAsPath(location)
    ensures var u := ParseUrl(url).value;
            ResolveRedirect(url, location)
              == Some(Origin(u) + ((if "/" <= location then "" else Directory(u.path)) + location))
  {
    hide ParseUrl;
    hide WellFormed;
    hide Url.Authority;
    hide Directory;
    var u := ParseUrl(url).value;
    var d := if "/" <= location then "" else Directory(u.path);
    assert Origin(u) + d + location == Origin(u) + (d + location);
    assert "/" <= location ==> "" + location == location;
  }

  /** A Location with a path only, or less. */
  lemma ResolveInPlace(url: string, location: string)
    requires GoodUrl(url)
    requires References.ParseReference(location).scheme.None? && References.ParseReference(location).authority.None?
    ensures ResolveRedirect(url, location) == Some(References.Target(BaseOf(ParseUrl(url).value), location)) <==>
            ResolvesRightly(ParseUrl(url).value, location)
  {
    if IsAbsolute(location) {
      AbsoluteHasScheme(location);
    }
    StartOfReference(location);
    var u, r := ParseUrl(url).value, References.ParseReference(location);
    TextOfPath(url, location);
    GoodPath(url);
    hide ParseUrl;
    hide WellFormed;
    hide Url.Authority;
    hide Directory;
    hide ResolveRedirect;
    hide References.ParseReference;
    hide References.Resolve;
    hide References.Recompose;
    hide References.DotFree;
    hide References.QueryPart;
    hide References.FragmentPart;
    hide EndsInDirectory;
    hide Origin;
    if r.path == "" {
      InPlaceWithoutPath(u, r, location);
    } else {
      InPlaceWithPath(u, r, location);
    }
  }

  lemma SamePathText(origin: string, d: string, path: string, tail: string, other: string)
    ensures origin + (d + (path + tail)) == origin + (other + tail) <==> d + path == other
  {
    assert d + (path + tail) == (d + path) + tail;
    SameBehind(origin, d + path, other, tail);
  }

  lemma InPlaceWithPath(u: Url, r: References.Reference, location: string)
    requires u.path != "" && u.path[0] == '/' && r.path != "" && r.scheme.None? && r.authority.None?
    requires location == r.path + TailOf(r) && ("/" <= location <==> "/" <= r.path)
    ensures var d := if r.path[0] == '/' then "" else Directory(u.path);
            var text := Origin(u) + ((if "/" <= location then "" else Directory(u.path)) + location);
            text == References.Recompose(References.Resolve(BaseOf(u), r)) <==> References.DotFree(d + r.path)
  {
    TextBehindOrigin(u, References.Resolve(BaseOf(u), r));
    DirectoryIsUpToSlash(u.path);
    var d := if r.path[0] == '/' then "" else Directory(u.path);
    var p := d + r.path;
    assert "/" <= r.path <==> r.path[0] == '/';
    assert d == "" ==> p == r.path;
    hide Url.Authority;
    hide Origin;
    hide Directory;
    hide TailOf;
    hide References.UpToLastSlash;
    hide References.RemoveDots;
    hide References.Recompose;
    hide References.DotFree;
    References.RemoveDotsIs(p);
    SamePathText(Origin(u), d, r.path, TailOf(r), References.RemoveDots(p));
  }

  lemma GoodPath(url: string)
    requires GoodUrl(url)
    ensures var u := ParseUrl(url).value; u.path != "" && u.path[0] == '/'
  {
    hide ParseUrl;
  }

  lemma InPlaceWithoutPath(u: Url, r: References.Reference, location: string)
    requires u.path != "" && u.path[0] == '/' && r.path == "" && r.scheme.None? && r.authority.None?
    requires location == r.path + TailOf(r) && !("/" <= location)
    ensures Origin(u) + (Directory(u.path) + location) == References.Recompose(References.Resolve(BaseOf(u), r)) <==>
            EndsInDirectory(u.path) && (r.query.Some? || u.query == "")
  {
    TextBehindOrigin(u, References.Resolve(BaseOf(u), r));
    hide Url.Authority;
    hide Origin;
    hide Directory;
    hide References.Recompose;
    hide References.FragmentPart;
    var last := DirectoryIsAllButLast(u.path);
    var f := References.FragmentPart(r.fragment);
    assert location == TailOf(r);
    if r.query.Some? {
      assert "" + TailOf(r) == TailOf(r);
      Longer(Origin(u), Directory(u.path), last, "", TailOf(r));
    } else {
      var more := if u.query == "" then "" else "?" + u.query;
      assert "" + f == f;
      Longer(Origin(u), Directory(u.path), last, more, f);
    }
  }

  /** For every Location, the code resolves it to the target of section 5.2 of RFC 3986 if and only if
      - it has its own scheme, written "http://" or "https://" in lower case, and no dot segments in its path; or
      - it has an authority but no scheme, and no dot segments; or
      - it has a path only, and no dot segments once that is merged with the current one; or
      - it has no path, the current path ends with a slash, and no query is inherited. */
  lemma ResolvesAsRfc(url: string, location: string)
    requires GoodUrl(url)
    ensures ResolveRedirect(url, location) == Some(References.Target(BaseOf(ParseUrl(url).value), location)) <==>
            ResolvesRightly(ParseUrl(url).value, location)
  {
    hide ParseUrl;
    hide ResolveRedirect;
    hide ResolvesRightly;
    hide References.ParseReference;
    hide References.Target;
    var r := References.ParseReference(location);
    if r.scheme.Some? {
      ResolveWithScheme(url, location);
    } else if r.authority.Some? {
      ResolveWithAuthority(url, location);
    } else {
      ResolveInPlace(url, location);
    }
  }

  /** Every URL reached is short enough for its path to be measured by a 64-bit length. */
  ghost predicate SmallChain(url: string, locations: seq<string>)
    decreases |locations|
  {
    locations != [] ==>
      && (ParseUrl(url).Ok? ==> |ParseUrl(url).value.path| + |locations[0]| < SIZE_MODULUS)
      && var next := ResolveRedirect(url, locations[0]);
         next.Some? ==> SmallChain(next.value, locations[1..])
  }

  /** Origin preservation: redirects read as paths never leave the scheme, host and port they started at. */
  lemma {:induction false} ChainKeepsOrigin(url: string, locations: seq<string>)
    requires GoodUrl(url) && SmallChain(url, locations)
    requires forall l :: l in locations ==> ReadAsPath(l)
    ensures var last := Follow(url, locations);
            last.Some? && GoodUrl(last.value) && SameOrigin(ParseUrl(url).value, ParseUrl(last.value).value)
    decreases |locations|
  {
    hide ParseUrl;
    hide ReadAsPath;
    hide ResolveRedirect;
    if locations != [] {
      assert locations[0] in locations;
      ResolveKeepsOrigin(url, locations[0]);
      assert forall l :: l in locations[1..] ==> l in locations;
      ChainKeepsOrigin(ResolveRedirect(url, locations[0]).value, locations[1..]);
    }
  }
}
