/** The Netscape cookie file of save_as_mozilla_format and load_from_mozilla_format (cookie.cpp). */
module MozillaFormat {
  import opened Text
  import opened Numbers
  import opened Cookies

  const HEADER1 := "# Netscape HTTP Cookie File"
  const HEADER2 := "# This is a generated file! Do not edit."
  const THIRTY_DAYS := 24 * 30 * 3600 * TICKS_PER_SECOND

  // ----- times -----

  /** duration_cast<seconds> truncates toward zero. */
  function SecondsOf(t: Ticks): int {
    var n: int := t;
    if n >= 0 then n / TICKS_PER_SECOND else -(-n / TICKS_PER_SECOND)
  }

  /** The 64-bit value of a tick count. */
  function WrapTicks(n: int): Ticks {
    (n + LONG_LIMIT) % (2 * LONG_LIMIT) - LONG_LIMIT
  }

  function FromSeconds(seconds: int): Ticks {
    WrapTicks(seconds * TICKS_PER_SECOND)
  }

  lemma WholeSeconds(t: Ticks)
    ensures -LONG_LIMIT <= SecondsOf(t) * TICKS_PER_SECOND < LONG_LIMIT
    ensures FromSeconds(SecondsOf(t)) == SecondsOf(t) * TICKS_PER_SECOND
    ensures if t >= 0 then 0 <= t - FromSeconds(SecondsOf(t)) < 1_000_000_000
            else -1_000_000_000 < t - FromSeconds(SecondsOf(t)) <= 0
    ensures -LONG_LIMIT <= SecondsOf(t) < LONG_LIMIT
  {
    var q := SecondsOf(t) * TICKS_PER_SECOND;
    assert if t >= 0 then 0 <= q <= t < q + TICKS_PER_SECOND else q - TICKS_PER_SECOND < t <= q <= 0;
  }

  // ----- words: operator>> into a string -----

  /** Text without white space. */
  predicate IsPlain(w: string) {
    w != "" && forall c :: c in w ==> !IsSpace(c)
  }

  function TakeWord(s: string): (w: string)
    ensures |w| <= |s|
    ensures s != "" && !IsSpace(s[0]) ==> IsPlain(w)
  {
    if s == "" || IsSpace(s[0]) then "" else [s[0]] + TakeWord(s[1..])
  }

  /** All words that repeated extraction reads from `s`. */
  function Words(s: string): seq<string>
    decreases |s|
  {
    if s == "" then []
    else if IsSpace(s[0]) then Words(s[1..])
    else [TakeWord(s)] + Words(s[|TakeWord(s)|..])
  }

  lemma {:induction false} WordsArePlain(s: string)
    ensures forall w :: w in Words(s) ==> IsPlain(w)
    decreases |s|
  {
    if s != "" {
      if IsSpace(s[0]) {
        WordsArePlain(s[1..]);
      } else {
        WordsArePlain(s[|TakeWord(s)|..]);
      }
    }
  }

  lemma {:induction false} TakeWordIs(w: string, rest: string)
    requires forall c :: c in w ==> !IsSpace(c)
    requires rest != "" ==> IsSpace(rest[0])
    ensures TakeWord(w + rest) == w
  {
    if w == "" {
      assert w + rest == rest;
    } else {
      assert (w + rest)[0] == w[0] && w[0] in w && (w + rest)[1..] == w[1..] + rest;
      TakeWordIs(w[1..], rest);
    }
  }

  lemma WordsCons(w: string, rest: string)
    requires IsPlain(w) && (rest != "" ==> IsSpace(rest[0]))
    ensures Words(w + rest) == [w] + Words(rest)
  {
    TakeWordIs(w, rest);
    assert (w + rest)[0] == w[0] && w[0] in w && (w + rest)[|w|..] == rest;
  }

  function Tabbed(words: seq<string>): string {
    if words == [] then ""
    else if |words| == 1 then words[0]
    else words[0] + ("\t" + Tabbed(words[1..]))
  }

  lemma {:induction false} WordsOfTabbed(words: seq<string>)
    requires forall w :: w in words ==> IsPlain(w)
    ensures Words(Tabbed(words)) == words
    ensures words != [] ==> words[0] != "" && Tabbed(words) != "" && Tabbed(words)[0] == words[0][0]
    ensures '\n' !in Tabbed(words)
  {
    if words != [] {
      var w, rest := words[0], words[1..];
      assert IsPlain(w) && [w] + rest == words && forall v :: v in rest ==> v in words;
      if rest == [] {
        WordsCons(w, "");
        assert w + "" == w;
      } else {
        WordsOfTabbed(rest);
        var tail := "\t" + Tabbed(rest);
        assert tail[1..] == Tabbed(rest);
        WordsCons(w, tail);
      }
    }
  }

  // ----- saving -----

  function Flag(b: bool): string {
    if b then "TRUE" else "FALSE"
  }

  function WordsOf(c: Cookie): seq<string> {
    [c.domain, Flag(c.domain != "" && c.domain[0] == '.'), c.path, Flag(c.secure), PrintInt(SecondsOf(c.expires)),
     c.name, c.value]
  }

  function Lines(cookies: seq<Cookie>, now: Ticks): string {
    if cookies == [] then ""
    else if cookies[0].IsExpired(now) then Lines(cookies[1..], now)
    else Tabbed(WordsOf(cookies[0])) + ("\n" + Lines(cookies[1..], now))
  }

  lemma {:induction false} LinesSnoc(cookies: seq<Cookie>, c: Cookie, now: Ticks)
    ensures Lines(cookies + [c], now)
            == Lines(cookies, now) + if c.IsExpired(now) then "" else Tabbed(WordsOf(c)) + "\n"
  {
    hide Tabbed;
    hide WordsOf;
    if cookies == [] {
      assert [] + [c] == [c] && [c][1..] == [];
    } else {
      assert (cookies + [c])[0] == cookies[0] && (cookies + [c])[1..] == cookies[1..] + [c];
      LinesSnoc(cookies[1..], c, now);
    }
  }

  function Saved(cookies: seq<Cookie>, now: Ticks): string {
    HEADER1 + ("\n" + (HEADER2 + ("\n" + ("" + ("\n" + Lines(cookies, now))))))
  }

  lemma {:induction false} TabbedCons(w: string, words: seq<string>)
    requires words != []
    ensures Tabbed([w] + words) == w + ("\t" + Tabbed(words))
  {
    assert ([w] + words)[1..] == words;
  }

  lemma TabbedSeven(a: string, b: string, c: string, d: string, e: string, f: string, g: string)
    ensures Tabbed([a, b, c, d, e, f, g]) ==
            a + ("\t" + (b + ("\t" + (c + ("\t" + (d + ("\t" + (e + ("\t" + (f + ("\t" + g)))))))))))
  {
    assert Tabbed([g]) == g;
    hide Tabbed;
    TabbedCons(f, [g]);
    TabbedCons(e, [f, g]);
    TabbedCons(d, [e, f, g]);
    TabbedCons(c, [d, e, f, g]);
    TabbedCons(b, [c, d, e, f, g]);
    TabbedCons(a, [b, c, d, e, f, g]);
    assert [f] + [g] == [f, g] && [e] + [f, g] == [e, f, g] && [d] + [e, f, g] == [d, e, f, g];
    assert [c] + [d, e, f, g] == [c, d, e, f, g] && [b] + [c, d, e, f, g] == [b, c, d, e, f, g];
    assert [a] + [b, c, d, e, f, g] == [a, b, c, d, e, f, g];
  }

  const FILE_HEADING := "# Netscape HTTP Cookie File" + "\n" + "# This is a generated file! Do not edit." + "\n\n"

  /** The file of one cookie: the heading, and a line of seven fields, the expiry in whole seconds. */
  lemma FileOfOne(c: Cookie, now: Ticks, seconds: nat)
    requires now <= c.expires && seconds * 1_000_000_000 <= c.expires < (seconds + 1) * 1_000_000_000
    ensures var includesHosts := if c.domain != "" && c.domain[0] == '.' then "TRUE" else "FALSE";
            var words := [c.domain, includesHosts, c.path, if c.secure then "TRUE" else "FALSE", ToDecimal(seconds),
                          c.name, c.value];
            Saved([c], now) == FILE_HEADING + Tabbed(words) + "\n"
  {
    hide Tabbed;
    hide ToDecimal;
    assert SecondsOf(c.expires) == seconds;
    hide SecondsOf;
    assert PrintInt(seconds) == ToDecimal(seconds);
    assert [c][1..] == [];
    var line := Tabbed(WordsOf(c));
    assert Lines([c], now) == line + ("\n" + "");
    HeadingIs();
    JoinHeading(HEADER1, HEADER2, line);
  }

  lemma HeadingIs()
    ensures FILE_HEADING == HEADER1 + "\n" + HEADER2 + "\n\n"
  {
  }

  lemma JoinHeading(first: string, second: string, line: string)
    ensures first + ("\n" + (second + ("\n" + ("" + ("\n" + (line + ("\n" + ""))))))) ==
            (first + "\n" + second + "\n\n") + line + "\n"
  {
    assert "\n\n" == "\n" + "\n";
  }

  // ----- loading -----

  /** The cookie of seven words; `fallback` is the expiry when the number is malformed. */
  function CookieOf(words: seq<string>, fallback: Ticks): Cookie
    requires |words| >= 7
  {
    var seconds := ParseLongLong(words[4]);
    Cookie(words[5], words[6], words[0], words[2], if seconds.None? then fallback else FromSeconds(seconds.value),
           words[3] == "TRUE", false, "")
  }

  function ParseLine(line: string, fallback: Ticks): seq<Cookie> {
    if line == "" || line[0] == '#' || |Words(line)| < 7 then [] else [CookieOf(Words(line), fallback)]
  }

  /** The cookies of a file; `now` is the time of loading. */
  function Loaded(text: string, now: Ticks): seq<Cookie>
    decreases |text|
  {
    if text == "" then []
    else
      var (line, rest) := CutAt(text, '\n');
      ParseLine(line, WrapTicks(now + THIRTY_DAYS)) + if rest.None? then [] else Loaded(rest.value, now)
  }

  lemma LoadLine(line: string, rest: string, now: Ticks)
    requires '\n' !in line
    ensures Loaded(line + ("\n" + rest), now) == ParseLine(line, WrapTicks(now + THIRTY_DAYS)) + Loaded(rest, now)
  {
    hide ParseLine;
    CutAtBehind(line, "\n" + rest, '\n');
    CutAtOwn('\n', rest);
    assert ['\n'] == "\n" && line + "" == line;
  }

  /** An expiry that is no 64-bit number becomes one 30 days after loading. */
  lemma UnreadableExpiry(words: seq<string>, now: Ticks)
    requires |words| == 7 && (forall w :: w in words ==> IsPlain(w)) && !("#" <= words[0])
    requires ParseLongLong(words[4]).None? && now + 2_592_000_000_000_000 < LONG_LIMIT
    ensures Loaded(Tabbed(words), now) ==
            [Cookie(words[5], words[6], words[0], words[2], now + 2_592_000_000_000_000, words[3] == "TRUE", false, "")]
  {
    hide ParseLongLong;
    hide Words;
    WordsOfTabbed(words);
    hide Tabbed;
    var line := Tabbed(words);
    CutAtAll(line);
    hide CutAt;
  }

  lemma CutAtAll(line: string)
    requires '\n' !in line
    ensures CutAt(line, '\n') == (line, None)
  {
    assert line[0..] == line;
    FindCharNone(line, '\n', 0);
  }

  // ----- round trip -----

  predicate HasPlainFields(c: Cookie) {
    IsPlain(c.domain) && IsPlain(c.path) && IsPlain(c.name) && IsPlain(c.value)
  }

  /** What the format can hold. */
  predicate IsStorable(c: Cookie) {
    HasPlainFields(c) && c.domain[0] != '#'
  }

  /** What comes back: httponly, samesite and the fraction of a second are lost. */
  function Reloaded(c: Cookie): Cookie {
    WholeSeconds(c.expires);
    c.(expires := SecondsOf(c.expires) * TICKS_PER_SECOND, httponly := false, samesite := "")
  }

  /** The unexpired cookies, in order, as they come back. */
  function ReloadedAll(cookies: seq<Cookie>, now: Ticks): seq<Cookie> {
    if cookies == [] then []
    else (if now <= cookies[0].expires then [Reloaded(cookies[0])] else []) + ReloadedAll(cookies[1..], now)
  }

  lemma {:induction false} PrintIntIsPlain(n: int)
    ensures IsPlain(PrintInt(n))
  {
    var digits := ToDecimal(if n < 0 then -n else n);
    forall c | c in PrintInt(n)
      ensures !IsSpace(c)
    {
      assert c == '-' || c in digits;
      assert c == '-' || IsDigit(c, 10);
    }
  }

  /** One saved line: it is read back, unless it looks like a comment. */
  lemma LineRoundTrip(c: Cookie, fallback: Ticks)
    requires HasPlainFields(c)
    ensures '\n' !in Tabbed(WordsOf(c))
    ensures ParseLine(Tabbed(WordsOf(c)), fallback) == if c.domain[0] == '#' then [] else [Reloaded(c)]
  {
    PrintIntIsPlain(SecondsOf(c.expires));
    WholeSeconds(c.expires);
    ParseLongLongPrint(SecondsOf(c.expires));
    hide PrintInt;
    hide FromSeconds;
    hide SecondsOf;
    hide Tabbed;
    hide Words;
    assert IsPlain("TRUE") && IsPlain("FALSE");
    var words := WordsOf(c);
    hide ParseLongLong;
    WordsOfTabbed(words);
    assert Reloaded(c) == CookieOf(words, fallback);
  }

  /** The unexpired cookies that are not taken for comments. */
  function Kept(cookies: seq<Cookie>, now: Ticks): seq<Cookie> {
    if cookies == [] then []
    else
      (if cookies[0].IsExpired(now) || (cookies[0].domain != "" && cookies[0].domain[0] == '#') then []
       else [Reloaded(cookies[0])]) +
      Kept(cookies[1..], now)
  }

  lemma {:induction false} LoadedLines(cookies: seq<Cookie>, now: Ticks, later: Ticks)
    requires forall c :: c in cookies && !c.IsExpired(now) ==> HasPlainFields(c)
    ensures Loaded(Lines(cookies, now), later) == Kept(cookies, now)
  {
    hide HasPlainFields;
    hide ParseLine;
    hide Tabbed;
    hide WordsOf;
    hide Reloaded;
    if cookies != [] {
      var c := cookies[0];
      assert c in cookies && forall d :: d in cookies[1..] ==> d in cookies;
      LoadedLines(cookies[1..], now, later);
      if c.IsExpired(now) {
        assert [] + Kept(cookies[1..], now) == Kept(cookies[1..], now);
      } else {
        DomainOfPlain(c);
        LineRoundTrip(c, WrapTicks(later + THIRTY_DAYS));
        LoadLine(Tabbed(WordsOf(c)), Lines(cookies[1..], now), later);
      }
    }
  }

  lemma DomainOfPlain(c: Cookie)
    requires HasPlainFields(c)
    ensures c.domain != ""
  {
  }

  lemma CommentLine(line: string, fallback: Ticks)
    requires line == "" || line[0] == '#'
    ensures ParseLine(line, fallback) == []
  {
  }

  lemma HeadingLines()
    ensures HEADER1[0] == '#' && HEADER2[0] == '#' && '\n' !in HEADER1 && '\n' !in HEADER2
  {
  }

  /** The heading is passed over. */
  lemma HeadingIsSkipped(cookies: seq<Cookie>, now: Ticks, later: Ticks)
    ensures Loaded(Saved(cookies, now), later) == Loaded(Lines(cookies, now), later)
  {
    HeadingLines();
    hide HEADER1;
    hide HEADER2;
    hide ParseLine;
    hide Loaded;
    var fallback := WrapTicks(later + THIRTY_DAYS);
    CommentLine(HEADER1, fallback);
    CommentLine(HEADER2, fallback);
    CommentLine("", fallback);
    var body := Lines(cookies, now);
    LoadLine(HEADER1, HEADER2 + ("\n" + ("" + ("\n" + body))), later);
    LoadLine(HEADER2, "" + ("\n" + body), later);
    LoadLine("", body, later);
  }

  /** Whatever is loaded has plain fields. */
  lemma {:induction false} LoadedFieldsArePlain(text: string, now: Ticks)
    ensures forall c :: c in Loaded(text, now) ==> HasPlainFields(c)
    decreases |text|
  {
    hide ParseLine;
    if text != "" {
      var (line, rest) := CutAt(text, '\n');
      LineFieldsArePlain(line, WrapTicks(now + THIRTY_DAYS));
      if rest.Some? {
        LoadedFieldsArePlain(rest.value, now);
      }
    }
  }

  lemma LineFieldsArePlain(line: string, fallback: Ticks)
    ensures forall c :: c in ParseLine(line, fallback) ==> HasPlainFields(c)
  {
    WordsArePlain(line);
  }

  lemma {:induction false} ReloadedHasAll(cookies: seq<Cookie>, now: Ticks)
    ensures forall c :: c in cookies && !c.IsExpired(now) ==> Reloaded(c) in ReloadedAll(cookies, now)
  {
    hide Reloaded;
    if cookies != [] {
      ReloadedHasAll(cookies[1..], now);
      assert cookies == [cookies[0]] + cookies[1..];
    }
  }

  /** Nothing is taken for a comment exactly when as many cookies come back. */
  lemma {:induction false} KeptAll(cookies: seq<Cookie>, now: Ticks)
    requires forall c :: c in cookies && !c.IsExpired(now) ==> HasPlainFields(c)
    ensures |Kept(cookies, now)| <= |ReloadedAll(cookies, now)|
    ensures Kept(cookies, now) == ReloadedAll(cookies, now) <==> AllStorable(cookies, now)
  {
    hide Reloaded;
    hide IsPlain;
    if cookies == [] {
    } else {
      var c, rest := cookies[0], cookies[1..];
      assert c in cookies && forall d :: d in rest ==> d in cookies;
      KeptAll(rest, now);
      AllStorableCons(cookies, now);
      hide AllStorable;
      if !c.IsExpired(now) { DomainOfPlain(c); }
      var k, a := Kept(rest, now), ReloadedAll(rest, now);
      assert [] + k == k && [] + a == a && ([Reloaded(c)] + k)[1..] == k && ([Reloaded(c)] + a)[1..] == a;
    }
  }

  predicate AllStorable(cookies: seq<Cookie>, now: Ticks) {
    forall c :: c in cookies && now <= c.expires ==> IsStorable(c)
  }

  lemma AllStorableCons(cookies: seq<Cookie>, now: Ticks)
    requires cookies != []
    ensures AllStorable(cookies, now) <==>
            (cookies[0].IsExpired(now) || IsStorable(cookies[0])) && AllStorable(cookies[1..], now)
  {
    hide IsStorable;
    assert forall d :: d in cookies <==> d == cookies[0] || d in cookies[1..] by {
      assert cookies == [cookies[0]] + cookies[1..];
    }
  }

  /** Loading what was saved gives exactly the unexpired cookies back, in order and up to httponly, samesite and
      the fraction of a second, if and only if each of them has non-empty fields without white space and a domain
      that does not start with '#'. */
  lemma SaveLoad(cookies: seq<Cookie>, now: Ticks, later: Ticks)
    ensures Loaded(Saved(cookies, now), later) == ReloadedAll(cookies, now) <==> AllStorable(cookies, now)
  {
    hide Saved;
    hide Loaded;
    hide IsPlain;
    HeadingIsSkipped(cookies, now, later);
    if forall c :: c in cookies && !c.IsExpired(now) ==> HasPlainFields(c) {
      LoadedLines(cookies, now, later);
      KeptAll(cookies, now);
    } else {
      var c :| c in cookies && !c.IsExpired(now) && !HasPlainFields(c);
      LoadedFieldsArePlain(Saved(cookies, now), later);
      ReloadedHasAll(cookies, now);
      assert !HasPlainFields(Reloaded(c)) && Reloaded(c) in ReloadedAll(cookies, now);
      assert Reloaded(c) !in Loaded(Saved(cookies, now), later);
      assert !IsStorable(c);
    }
  }
}
