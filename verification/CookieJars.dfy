/** The cookie jar of cookie.cpp: an ordered store in which the last write of a cookie wins. */
module CookieJars {
  import opened Text
  import opened Cookies
  import opened MozillaFormat

  function NormalizeDomain(domain: string): string {
    if domain == "" then "" else ToLower(if domain[0] != '.' then "." + domain else domain)
  }

  /** `domain` without a leading dot. */
  function Bare(domain: string): string {
    if domain != "" && domain[0] == '.' then domain[1..] else domain
  }

  /** Two domains are the same for the jar when they differ at most in letter case and in a leading dot. */
  lemma SameDomain(d: string, e: string)
    requires d != "" && e != ""
    ensures NormalizeDomain(d) == NormalizeDomain(e) <==> ToLower(Bare(d)) == ToLower(Bare(e))
  {
    NormalizedIs(d);
    NormalizedIs(e);
    assert ("." + ToLower(Bare(d)))[1..] == ToLower(Bare(d)) && ("." + ToLower(Bare(e)))[1..] == ToLower(Bare(e));
  }

  lemma NormalizedIs(d: string)
    requires d != ""
    ensures NormalizeDomain(d) == "." + ToLower(Bare(d))
  {
    assert d[0] == '.' ==> d == "." + Bare(d);
    ToLowerConcat(".", Bare(d));
    assert ToLower(".") == ".";
  }

  /** What identifies a cookie. */
  datatype Key = Key(name: string, domain: string, path: string)

  function KeyOf(c: Cookie): Key {
    Key(c.name, NormalizeDomain(c.domain), c.path)
  }

  /** Two cookies with domains are the same one when their names and paths are equal, and their domains up to letter
      case and a leading dot. */
  lemma SameKey(c: Cookie, d: Cookie)
    requires c.domain != "" && d.domain != ""
    ensures KeyOf(c) == KeyOf(d) <==>
            c.name == d.name && c.path == d.path && ToLower(Bare(c.domain)) == ToLower(Bare(d.domain))
  {
    hide NormalizeDomain;
    SameDomain(c.domain, d.domain);
  }

  /** The cookies with another key, in order. */
  function Without(cookies: seq<Cookie>, key: Key): seq<Cookie> {
    if cookies == [] then []
    else (if KeyOf(cookies[0]) == key then [] else [cookies[0]]) + Without(cookies[1..], key)
  }

  /** add_cookie */
  function Added(cookies: seq<Cookie>, c: Cookie): seq<Cookie> {
    Without(cookies, KeyOf(c)) + [c]
  }

  function AddedAll(cookies: seq<Cookie>, writes: seq<Cookie>): seq<Cookie>
    decreases |writes|
  {
    if writes == [] then cookies else AddedAll(Added(cookies, writes[0]), writes[1..])
  }

  // ----- last-write order -----

  predicate HasKey(cookies: seq<Cookie>, key: Key) {
    exists c :: c in cookies && KeyOf(c) == key
  }

  /** The writes that no later write of the same cookie replaces, in the order of writing. */
  function LastWrites(writes: seq<Cookie>): seq<Cookie> {
    if writes == [] then []
    else (if HasKey(writes[1..], KeyOf(writes[0])) then [] else [writes[0]]) + LastWrites(writes[1..])
  }

  /** The cookies that none of `writes` replaces. */
  function Survivors(cookies: seq<Cookie>, writes: seq<Cookie>): seq<Cookie> {
    if cookies == [] then []
    else (if HasKey(writes, KeyOf(cookies[0])) then [] else [cookies[0]]) + Survivors(cookies[1..], writes)
  }

  lemma {:induction false} SurvivorsSnoc(cookies: seq<Cookie>, c: Cookie, writes: seq<Cookie>)
    ensures Survivors(cookies + [c], writes) ==
            Survivors(cookies, writes) + if HasKey(writes, KeyOf(c)) then [] else [c]
  {
    hide KeyOf;
    if cookies == [] {
      assert [] + [c] == [c] && [c][1..] == [];
    } else {
      assert (cookies + [c])[0] == cookies[0] && (cookies + [c])[1..] == cookies[1..] + [c];
      SurvivorsSnoc(cookies[1..], c, writes);
    }
  }

  lemma HasKeyCons(c: Cookie, rest: seq<Cookie>, key: Key)
    ensures HasKey([c] + rest, key) <==> KeyOf(c) == key || HasKey(rest, key)
  {
    assert c in [c] + rest;
    assert forall d :: d in [c] + rest <==> d == c || d in rest;
  }

  lemma {:induction false} SurvivorsOfWithout(cookies: seq<Cookie>, c: Cookie, rest: seq<Cookie>)
    ensures Survivors(Without(cookies, KeyOf(c)), rest) == Survivors(cookies, [c] + rest)
  {
    hide KeyOf;
    if cookies != [] {
      var d := cookies[0];
      SurvivorsOfWithout(cookies[1..], c, rest);
      HasKeyCons(c, rest, KeyOf(d));
      var w := Without(cookies[1..], KeyOf(c));
      assert [] + w == w && ([d] + w)[1..] == w;
    }
  }

  /** One add_cookie call. */
  lemma SurvivorsOfAdded(cookies: seq<Cookie>, c: Cookie, rest: seq<Cookie>)
    ensures Survivors(Added(cookies, c), rest) ==
            Survivors(cookies, [c] + rest) + if HasKey(rest, KeyOf(c)) then [] else [c]
  {
    hide KeyOf;
    hide Survivors;
    SurvivorsSnoc(Without(cookies, KeyOf(c)), c, rest);
    SurvivorsOfWithout(cookies, c, rest);
  }

  lemma Regroup<T>(a: seq<T>, s: seq<T>)
    requires s != []
    ensures [s[0]] + s[1..] == s && a + [s[0]] + s[1..] == a + s
  {
  }

  lemma MoveMiddle<T>(a: seq<T>, b: seq<T>, c: seq<T>)
    ensures (a + b) + c == a + (b + c)
  {
  }

  /** Any sequence of add_cookie calls on any jar: what no call replaces keeps its place, and the last write of
      each cookie follows, in the order of these writes. */
  lemma {:induction false} AddedAllIsLastWrites(cookies: seq<Cookie>, writes: seq<Cookie>)
    ensures AddedAll(cookies, writes) == Survivors(cookies, writes) + LastWrites(writes)
    decreases |writes|
  {
    hide KeyOf;
    hide Added;
    hide HasKey;
    if writes == [] {
      AllSurvive(cookies);
    } else {
      hide Survivors;
      var c, rest := writes[0], writes[1..];
      Regroup(cookies, writes);
      AddedAllIsLastWrites(Added(cookies, c), rest);
      SurvivorsOfAdded(cookies, c, rest);
      MoveMiddle(Survivors(cookies, writes), if HasKey(rest, KeyOf(c)) then [] else [c], LastWrites(rest));
    }
  }

  lemma {:induction false} AllSurvive(cookies: seq<Cookie>)
    ensures Survivors(cookies, []) == cookies
  {
    if cookies != [] {
      AllSurvive(cookies[1..]);
      assert !HasKey([], KeyOf(cookies[0]));
    }
  }

  /** No two cookies have the same name, normalized domain and path. */
  predicate NoDuplicates(cookies: seq<Cookie>) {
    cookies == [] || (!HasKey(cookies[1..], KeyOf(cookies[0])) && NoDuplicates(cookies[1..]))
  }

  lemma {:induction false} WithoutKeys(cookies: seq<Cookie>, key: Key, other: Key)
    ensures HasKey(Without(cookies, key), other) <==> HasKey(cookies, other) && other != key
  {
    hide KeyOf;
    if cookies != [] {
      var c, rest := cookies[0], cookies[1..];
      assert [c] + rest == cookies;
      WithoutKeys(rest, key, other);
      HasKeyCons(c, rest, other);
      HasKeyCons(c, Without(rest, key), other);
      hide HasKey;
      assert [] + Without(rest, key) == Without(rest, key);
    }
  }

  lemma {:induction false} WithoutDistinct(cookies: seq<Cookie>, key: Key)
    requires NoDuplicates(cookies)
    ensures NoDuplicates(Without(cookies, key))
  {
    hide KeyOf;
    hide HasKey;
    if cookies != [] {
      var c, w := cookies[0], Without(cookies[1..], key);
      WithoutDistinct(cookies[1..], key);
      WithoutKeys(cookies[1..], key, KeyOf(c));
      assert [] + w == w && ([c] + w)[1..] == w;
    }
  }

  lemma {:induction false} DistinctSnoc(cookies: seq<Cookie>, c: Cookie)
    requires NoDuplicates(cookies) && !HasKey(cookies, KeyOf(c))
    ensures NoDuplicates(cookies + [c])
  {
    hide KeyOf;
    if cookies == [] {
      assert [] + [c] == [c] && [c][1..] == [];
    } else {
      var first, rest := cookies[0], cookies[1..];
      assert [first] + rest == cookies && (cookies + [c])[0] == first && (cookies + [c])[1..] == rest + [c];
      HasKeyCons(first, rest, KeyOf(c));
      DistinctSnoc(rest, c);
      HasKeySnoc(rest, c, KeyOf(first));
      HasKeyCons(first, rest, KeyOf(first));
    }
  }

  lemma HasKeySnoc(cookies: seq<Cookie>, c: Cookie, key: Key)
    ensures HasKey(cookies + [c], key) <==> HasKey(cookies, key) || KeyOf(c) == key
  {
    hide KeyOf;
    assert forall d :: d in cookies + [c] <==> d in cookies || d == c;
  }

  /** A jar without duplicates never gets any, whatever is added; an empty jar has none. */
  lemma {:induction false} AddedAllDistinct(cookies: seq<Cookie>, writes: seq<Cookie>)
    requires NoDuplicates(cookies)
    ensures NoDuplicates(AddedAll(cookies, writes))
    decreases |writes|
  {
    hide NoDuplicates;
    hide HasKey;
    hide KeyOf;
    if writes != [] {
      var c := writes[0];
      WithoutDistinct(cookies, KeyOf(c));
      WithoutKeys(cookies, KeyOf(c), KeyOf(c));
      DistinctSnoc(Without(cookies, KeyOf(c)), c);
      AddedAllDistinct(Added(cookies, c), writes[1..]);
    }
  }

  // ----- the map that the jar refines -----

  /** The map after the given writes: each replaces what its key had before. */
  function AsMap(writes: seq<Cookie>): map<Key, Cookie> {
    if writes == [] then map[]
    else AsMap(writes[..|writes| - 1])[KeyOf(writes[|writes| - 1]) := writes[|writes| - 1]]
  }

  lemma AsMapSnoc(writes: seq<Cookie>, c: Cookie)
    ensures AsMap(writes + [c]) == AsMap(writes)[KeyOf(c) := c]
  {
    assert (writes + [c])[..|writes|] == writes;
  }

  lemma {:induction false} WithoutSnoc(cookies: seq<Cookie>, c: Cookie, key: Key)
    ensures Without(cookies + [c], key) == Without(cookies, key) + if KeyOf(c) == key then [] else [c]
  {
    hide KeyOf;
    if cookies == [] {
      assert [] + [c] == [c] && [c][1..] == [];
    } else {
      assert (cookies + [c])[0] == cookies[0] && (cookies + [c])[1..] == cookies[1..] + [c];
      WithoutSnoc(cookies[1..], c, key);
    }
  }

  lemma {:induction false} AsMapWithout(cookies: seq<Cookie>, key: Key)
    ensures AsMap(Without(cookies, key)) == AsMap(cookies) - {key}
    decreases |cookies|
  {
    hide KeyOf;
    if cookies != [] {
      var n := |cookies| - 1;
      var front, c := cookies[..n], cookies[n];
      assert front + [c] == cookies;
      AsMapWithout(front, key);
      WithoutSnoc(front, c, key);
      if KeyOf(c) == key {
        assert Without(front, key) + [] == Without(front, key);
      } else {
        AsMapSnoc(Without(front, key), c);
      }
    }
  }

  lemma AddedIsMap(cookies: seq<Cookie>, c: Cookie)
    ensures AsMap(Added(cookies, c)) == AsMap(cookies + [c])
  {
    hide KeyOf;
    AsMapWithout(cookies, KeyOf(c));
    AsMapSnoc(Without(cookies, KeyOf(c)), c);
    AsMapSnoc(cookies, c);
  }

  /** Adding to the jar is writing to the map, for every sequence of add_cookie calls. */
  lemma {:induction false} AddedAllIsMap(cookies: seq<Cookie>, writes: seq<Cookie>)
    ensures AsMap(AddedAll(cookies, writes)) == AsMap(cookies + writes)
    decreases |writes|
  {
    hide AsMap;
    hide Added;
    if writes == [] {
      assert cookies + writes == cookies;
    } else {
      var c, rest := writes[0], writes[1..];
      AddedAllIsMap(Added(cookies, c), rest);
      AddedIsMap(cookies, c);
      AsMapAppend(Added(cookies, c), cookies + [c], rest);
      Regroup(cookies, writes);
    }
  }

  lemma {:induction false} AsMapAppend(a: seq<Cookie>, b: seq<Cookie>, more: seq<Cookie>)
    requires AsMap(a) == AsMap(b)
    ensures AsMap(a + more) == AsMap(b + more)
    decreases |more|
  {
    hide KeyOf;
    if more == [] {
      assert a + more == a && b + more == b;
    } else {
      var n := |more| - 1;
      AsMapAppend(a, b, more[..n]);
      AsMapSnoc(a + more[..n], more[n]);
      AsMapSnoc(b + more[..n], more[n]);
      assert (a + more[..n]) + [more[n]] == a + more && (b + more[..n]) + [more[n]] == b + more;
    }
  }

  // ----- reading -----

  function OneIf(c: Cookie, b: bool): seq<Cookie> {
    if b then [c] else []
  }

  function Selected(cookies: seq<Cookie>, domain: string, path: string, now: Ticks): seq<Cookie> {
    if cookies == [] then []
    else OneIf(cookies[0], cookies[0].IsFor(domain, path, now)) + Selected(cookies[1..], domain, path, now)
  }

  /** The cookie has not expired, its domain ends the one asked for and its path begins it. */
  ghost predicate IsWanted(c: Cookie, domain: string, path: string, now: Ticks) {
    && now <= c.expires
    && (exists front: string :: domain == front + c.domain)
    && (exists rest: string :: path == c.path + rest)
  }

  lemma SuffixIsEnd(s: string, suffix: string)
    ensures (exists front: string :: s == front + suffix) <==> s == suffix || EndsWith(s, suffix)
  {
    if |s| >= |suffix| {
      var n := |s| - |suffix|;
      assert s == s[..n] + s[n..];
      assert forall front: string :: s == front + suffix ==> |front| == n && s[n..] == suffix;
    }
  }

  lemma IsForExactly(c: Cookie, domain: string, path: string, now: Ticks)
    ensures c.IsFor(domain, path, now) <==> IsWanted(c, domain, path, now)
  {
    SuffixIsEnd(domain, c.domain);
    assert "" <= path;
    if c.path <= path {
      assert path == c.path + path[|c.path|..];
    }
  }

  /** The cookies read are the wanted ones, in order. */
  lemma {:induction false} SelectedIsWanted(cookies: seq<Cookie>, domain: string, path: string, now: Ticks)
    ensures forall c :: c in Selected(cookies, domain, path, now) <==> c in cookies && IsWanted(c, domain, path, now)
    ensures (forall c :: c in cookies ==> IsWanted(c, domain, path, now)) ==>
              Selected(cookies, domain, path, now) == cookies
  {
    hide IsWanted;
    hide Cookie.IsFor;
    if cookies != [] {
      var c := cookies[0];
      IsForExactly(c, domain, path, now);
      SelectedIsWanted(cookies[1..], domain, path, now);
      assert cookies == [c] + cookies[1..];
    }
  }

  lemma {:induction false} SelectedSnoc(cookies: seq<Cookie>, c: Cookie, domain: string, path: string, now: Ticks)
    ensures Selected(cookies + [c], domain, path, now)
            == Selected(cookies, domain, path, now) + OneIf(c, c.IsFor(domain, path, now))
  {
    hide Cookie.IsFor;
    hide OneIf;
    if cookies == [] {
      assert [] + [c] == [c] && [c][1..] == [];
      assert OneIf(c, c.IsFor(domain, path, now)) + [] == [] + OneIf(c, c.IsFor(domain, path, now));
    } else {
      var first, rest := cookies[0], cookies[1..];
      assert (cookies + [c])[0] == first && (cookies + [c])[1..] == rest + [c];
      SelectedSnoc(rest, c, domain, path, now);
      MoveMiddle(OneIf(first, first.IsFor(domain, path, now)), Selected(rest, domain, path, now),
                 OneIf(c, c.IsFor(domain, path, now)));
    }
  }

  /** A cookie just added is the last one read back, and the ones it replaced are never read again. */
  lemma ReadAfterAdd(cookies: seq<Cookie>, c: Cookie, domain: string, path: string, now: Ticks)
    requires c.IsFor(domain, path, now)
    ensures Selected(Added(cookies, c), domain, path, now) ==
            Without(Selected(cookies, domain, path, now), KeyOf(c)) + [c]
  {
    hide Cookie.IsFor;
    SelectedSnoc(Without(cookies, KeyOf(c)), c, domain, path, now);
    SelectedWithout(cookies, KeyOf(c), domain, path, now);
  }

  lemma {:induction false} SelectedWithout(cookies: seq<Cookie>, key: Key, domain: string, path: string, now: Ticks)
    ensures Selected(Without(cookies, key), domain, path, now) == Without(Selected(cookies, domain, path, now), key)
  {
    hide Cookie.IsFor;
    hide KeyOf;
    if cookies != [] {
      var c := cookies[0];
      SelectedWithout(cookies[1..], key, domain, path, now);
      var w, s := Without(cookies[1..], key), Selected(cookies[1..], domain, path, now);
      assert [] + w == w && ([c] + w)[1..] == w && [] + s == s && ([c] + s)[1..] == s;
    }
  }

  // ----- the code -----

  class CookieJar {
    var cookies: seq<Cookie>

    constructor ()
      ensures cookies == []
    {
      cookies := [];
    }

    method AddCookie(cookie: Cookie)
      modifies this
      ensures cookies == Added(old(cookies), cookie)
    {
      hide KeyOf;
      var it := 0;
      ghost var all := Without(cookies, KeyOf(cookie));
      assert cookies[0..] == cookies && [] + all == all;
      while it < |cookies|
        invariant 0 <= it <= |cookies|
        invariant cookies[..it] + Without(cookies[it..], KeyOf(cookie)) == all
        decreases |cookies| - it
      {
        Step(cookies, it, KeyOf(cookie));
        if KeyOf(cookies[it]) == KeyOf(cookie) {
          cookies := cookies[..it] + cookies[it + 1..];
        } else {
          it := it + 1;
        }
      }
      assert cookies[..it] == cookies && cookies + [] == cookies;
      cookies := cookies + [cookie];
    }

    method GetCookies(domain: string, path: string, now: Ticks) returns (result: seq<Cookie>)
      ensures result == Selected(cookies, domain, path, now)
    {
      hide Cookie.IsFor;
      result := [];
      for i := 0 to |cookies|
        invariant result == Selected(cookies[..i], domain, path, now)
      {
        assert cookies[..i + 1] == cookies[..i] + [cookies[i]];
        SelectedSnoc(cookies[..i], cookies[i], domain, path, now);
        if cookies[i].IsFor(domain, path, now) {
          result := result + [cookies[i]];
        }
      }
      assert cookies[..|cookies|] == cookies;
    }

    /** save_as_mozilla_format into a file that can be opened: its contents. */
    method SaveAsMozillaFormat(now: Ticks) returns (file: string)
      ensures file == Saved(cookies, now)
    {
      hide Tabbed;
      hide WordsOf;
      file := HEADER1 + "\n";
      file := file + HEADER2 + "\n" + "\n";
      ghost var heading := file;
      for i := 0 to |cookies|
        invariant file == heading + Lines(cookies[..i], now)
      {
        assert cookies[..i + 1] == cookies[..i] + [cookies[i]];
        LinesSnoc(cookies[..i], cookies[i], now);
        if !cookies[i].IsExpired(now) {
          file := file + Tabbed(WordsOf(cookies[i])) + "\n";
        }
      }
      assert cookies[..|cookies|] == cookies;
    }

    /** load_from_mozilla_format; `file` is None when it cannot be opened. */
    method LoadFromMozillaFormat(file: Option<string>, now: Ticks) returns (ok: bool)
      modifies this
      ensures ok <==> file.Some?
      ensures cookies == if ok then Loaded(file.value, now) else old(cookies)
    {
      hide CutAt;
      hide ParseLine;
      if file.None? { return false; }
      cookies := [];
      var text := file.value;
      while text != ""
        invariant cookies + Loaded(text, now) == Loaded(file.value, now)
        decreases |text|
      {
        var (line, rest) := CutAt(text, '\n');
        var parsed := ParseLine(line, WrapTicks(now + THIRTY_DAYS));
        var remaining := if rest.None? then "" else rest.value;
        assert (cookies + parsed) + Loaded(remaining, now) == cookies + (parsed + Loaded(remaining, now));
        cookies := cookies + parsed;
        text := remaining;
      }
      ok := true;
    }
  }

  /** One round of the erase loop. */
  lemma Step(cookies: seq<Cookie>, it: nat, key: Key)
    requires it < |cookies|
    ensures var erased := cookies[..it] + cookies[it + 1..];
            var all := cookies[..it] + Without(cookies[it..], key);
            if KeyOf(cookies[it]) == key then erased[..it] + Without(erased[it..], key) == all
            else cookies[..it + 1] + Without(cookies[it + 1..], key) == all
  {
    hide KeyOf;
    var erased := cookies[..it] + cookies[it + 1..];
    assert erased[..it] == cookies[..it] && erased[it..] == cookies[it + 1..];
    assert cookies[it..][0] == cookies[it] && cookies[it..][1..] == cookies[it + 1..];
    var w := Without(cookies[it + 1..], key);
    assert [] + w == w && cookies[..it] + ([cookies[it]] + w) == cookies[..it + 1] + w;
  }
}
