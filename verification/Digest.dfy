/** DigestAuth::process_challenge of auth.cpp: the scanner for WWW-Authenticate parameters (section 11.6.1 of
    RFC 9110, section 3.3 of RFC 7616). The random client nonce is a parameter. */
module Digest {
  import opened Text

  // ----- blanks -----

  predicate IsBlank(c: char) {
    c == ' ' || c == '\t'
  }

  predicate AllBlank(s: string) {
    forall c :: c in s ==> IsBlank(c)
  }

  function SkipBlank(s: string): (r: string)
    ensures |r| <= |s|
    ensures r != "" ==> !IsBlank(r[0])
  {
    if s != "" && IsBlank(s[0]) then SkipBlank(s[1..]) else s
  }

  function DropBlank(s: string): (r: string)
    ensures r != "" ==> !IsBlank(r[|r| - 1])
  {
    if s != "" && IsBlank(s[|s| - 1]) then DropBlank(s[..|s| - 1]) else s
  }

  function TrimBlank(s: string): string {
    DropBlank(SkipBlank(s))
  }

  lemma {:induction false} SkipBlankBehind(blank: string, s: string)
    requires AllBlank(blank)
    ensures SkipBlank(blank + s) == SkipBlank(s)
  {
    if blank == "" {
      assert blank + s == s;
    } else {
      assert (blank + s)[0] == blank[0] && (blank + s)[1..] == blank[1..] + s;
      SkipBlankBehind(blank[1..], s);
    }
  }

  lemma {:induction false} DropBlankBefore(s: string, blank: string)
    requires AllBlank(blank) && (s != "" ==> !IsBlank(s[|s| - 1]))
    ensures DropBlank(s + blank) == s
  {
    if blank == "" {
      assert s + blank == s;
    } else {
      var n := |blank| - 1;
      assert (s + blank)[|s| + n] == blank[n] && blank[n] in blank && (s + blank)[..|s| + n] == s + blank[..n];
      DropBlankBefore(s, blank[..n]);
    }
  }

  /** Trimming leaves a core that neither starts nor ends with a blank. */
  lemma TrimBlankIs(core: string, blank: string)
    requires AllBlank(blank) && core != "" && !IsBlank(core[0]) && !IsBlank(core[|core| - 1])
    ensures TrimBlank(core + blank) == core
  {
    assert (core + blank)[0] == core[0];
    DropBlankBefore(core, blank);
  }

  // ----- the scanner -----

  datatype Pair = Pair(key: string, value: string)

  /** Behind a quoted value, a comma directly after it and the blanks after that comma. */
  function AfterQuoted(s: string): (r: string)
    ensures |r| <= |s|
  {
    if s != "" && s[0] == ',' then SkipBlank(s[1..]) else s
  }

  /** The value that starts `v`, and what is left to scan; None for a quote that is never closed. */
  function TakeValue(v: string): (r: Option<(string, string)>)
    requires v != ""
    ensures r.Some? ==> |r.value.1| < |v|
  {
    if v[0] == '"' then
      var (value, rest) := CutAt(v[1..], '"');
      if rest.None? then None else Some((value, AfterQuoted(rest.value)))
    else
      var (value, rest) := CutAt(v, ',');
      Some((TrimBlank(value), OrEmpty(rest)))
  }

  /** The parameters that the scanner stores, in order. */
  function Scan(s: string): seq<Pair>
    decreases |s|
  {
    var (key, r) := CutAt(SkipBlank(s), '=');
    var v := if r.None? then "" else SkipBlank(r.value);
    var taken := if v == "" then None else TakeValue(v);
    if taken.None? then [] else [Pair(TrimBlank(key), taken.value.0)] + Scan(taken.value.1)
  }

  /** The four fields a challenge sets. */
  datatype Fields = Fields(realm: string, nonce: string, algorithm: string, qop: string)

  function Store(f: Fields, p: Pair): Fields {
    if p.key == "realm" then f.(realm := p.value)
    else if p.key == "nonce" then f.(nonce := p.value)
    else if p.key == "algorithm" then f.(algorithm := p.value)
    else if p.key == "qop" then f.(qop := p.value)
    else f
  }

  function StoreAll(f: Fields, pairs: seq<Pair>): Fields
    decreases |pairs|
  {
    if pairs == [] then f else StoreAll(Store(f, pairs[0]), pairs[1..])
  }

  predicate IsDigest(challenge: string) {
    "Digest" <= challenge || "digest" <= challenge
  }

  /** What follows the scheme name and one space. */
  function Body(challenge: string): string
    requires IsDigest(challenge)
  {
    if |challenge| > 6 && challenge[6] == ' ' then challenge[7..] else challenge[6..]
  }

  function Challenged(f: Fields, challenge: string): Fields {
    if IsDigest(challenge) then StoreAll(f, Scan(Body(challenge))) else f
  }

  // ----- parameter lists -----

  /** before key mid = after value gap, where the value may be quoted; the gap is what precedes the comma. */
  datatype Param = Param(before: string, key: string, mid: string, after: string, value: string, quoted: bool,
                         gap: string)
  {
    ghost predicate Valid() {
      && AllBlank(before) && AllBlank(mid) && AllBlank(after) && AllBlank(gap)
      && key != "" && !IsBlank(key[0]) && !IsBlank(key[|key| - 1]) && '=' !in key
      && if quoted then '"' !in value
         else value != "" && !IsBlank(value[0]) && !IsBlank(value[|value| - 1]) && value[0] != '"' && ',' !in value
    }

    function Value(): string {
      if quoted then "\"" + (value + "\"") else value
    }
  }

  /** The text of a list, with the parameters separated by commas. */
  function Render(ps: seq<Param>): string
    decreases |ps|, 1
  {
    if ps == [] then ""
    else Front(ps[0]) + ("=" + (ps[0].after + (ps[0].Value() + Back(ps))))
  }

  function Front(p: Param): string {
    p.before + (p.key + p.mid)
  }

  /** What follows the value of the first parameter. */
  function Back(ps: seq<Param>): string
    requires ps != []
    decreases |ps|, 0
  {
    ps[0].gap + if |ps| == 1 then "" else "," + Render(ps[1..])
  }

  // ----- scanning a list -----

  lemma CutAtWord(a: string, c: char, rest: string)
    requires c !in a
    ensures CutAt(a + ([c] + rest), c) == (a, Some(rest))
  {
    CutAtBehind(a, [c] + rest, c);
    CutAtOwn(c, rest);
    assert a + "" == a;
  }

  lemma CutAtNowhere(a: string, c: char)
    requires c !in a
    ensures CutAt(a, c) == (a, None)
  {
    assert a[0..] == a;
    FindCharNone(a, c, 0);
  }

  lemma NotBlank(blank: string, c: char)
    requires AllBlank(blank) && !IsBlank(c)
    ensures c !in blank
  {
  }

  lemma NoneBlankInside(core: string, blank: string, c: char)
    requires AllBlank(blank) && !IsBlank(c) && c !in core
    ensures c !in core + blank
  {
    NotBlank(blank, c);
  }

  lemma SkipToValue(blank: string, v: string)
    requires AllBlank(blank) && v != "" && !IsBlank(v[0])
    ensures SkipBlank(blank + v) == v
  {
    SkipBlankBehind(blank, v);
  }

  /** The key of a parameter, and what follows it. */
  lemma KeyAndRest(core: string, mid: string, rest: string)
    requires AllBlank(mid) && core != "" && !IsBlank(core[0]) && !IsBlank(core[|core| - 1]) && '=' !in core
    ensures var t := (core + mid) + ("=" + rest);
            SkipBlank(t) == t && CutAt(t, '=') == (core + mid, Some(rest)) && TrimBlank(core + mid) == core
  {
    var t := (core + mid) + ("=" + rest);
    assert t[0] == core[0];
    NoneBlankInside(core, mid, '=');
    assert ['='] == "=";
    CutAtWord(core + mid, '=', rest);
    TrimBlankIs(core, mid);
  }

  lemma ScanQuoted(core: string, p: Param, back: string)
    requires p.Valid() && p.quoted
    requires core != "" && !IsBlank(core[0]) && !IsBlank(core[|core| - 1]) && '=' !in core
    ensures Scan((core + p.mid) + ("=" + (p.after + (p.Value() + back))))
            == [Pair(core, p.value)] + Scan(AfterQuoted(back))
  {
    hide CutAt;
    hide TrimBlank;
    hide SkipBlank;
    hide AfterQuoted;
    QuotedValue(p, back);
    hide Param.Value;
    hide Param.Valid;
    KeyAndRest(core, p.mid, p.after + (p.Value() + back));
  }

  /** A quoted value behind blanks, and what follows it. */
  lemma QuotedValue(p: Param, back: string)
    requires p.Valid() && p.quoted
    ensures var v := p.Value() + back;
            && AllBlank(p.mid) && SkipBlank(p.after + v) == v
            && v != "" && v[0] == '"' && CutAt(v[1..], '"') == (p.value, Some(back))
  {
    hide CutAt;
    hide SkipBlank;
    var v := p.Value() + back;
    assert v[0] == '"' && v[1..] == p.value + (['"'] + back);
    SkipToValue(p.after, v);
    CutAtWord(p.value, '"', back);
  }

  lemma ScanUnquoted(core: string, p: Param, back: string)
    requires p.Valid() && !p.quoted && (back == "" || back[0] == ',')
    requires core != "" && !IsBlank(core[0]) && !IsBlank(core[|core| - 1]) && '=' !in core
    ensures Scan((core + p.mid) + ("=" + (p.after + (p.Value() + (p.gap + back))))) ==
            [Pair(core, p.value)] + Scan(if back == "" then "" else back[1..])
  {
    hide CutAt;
    hide TrimBlank;
    hide SkipBlank;
    var v := p.value + (p.gap + back);
    KeyAndRest(core, p.mid, p.after + v);
    assert v[0] == p.value[0] && v == (p.value + p.gap) + back;
    SkipToValue(p.after, v);
    NoneBlankInside(p.value, p.gap, ',');
    TrimBlankIs(p.value, p.gap);
    if back == "" {
      assert v == p.value + p.gap;
      CutAtNowhere(v, ',');
    } else {
      assert back == [','] + back[1..];
      CutAtWord(p.value + p.gap, ',', back[1..]);
    }
  }

  lemma ScanSkipsBlank(blank: string, s: string)
    requires AllBlank(blank)
    ensures Scan(blank + s) == Scan(s)
  {
    SkipBlankBehind(blank, s);
  }

  lemma ScanAfterSkip(s: string)
    ensures Scan(SkipBlank(s)) == Scan(s)
  {
    assert SkipBlank(SkipBlank(s)) == SkipBlank(s);
  }

  lemma ScanOfBlank(blank: string)
    requires AllBlank(blank)
    ensures Scan(blank) == []
  {
    assert blank + "" == blank;
    ScanSkipsBlank(blank, "");
  }

  /** The parameters meant. */
  function Meant(ps: seq<Param>): seq<Pair> {
    if ps == [] then [] else [Pair(ps[0].key, ps[0].value)] + Meant(ps[1..])
  }

  /** The parameters the scanner sees: a comma that does not directly follow a quoted value goes into the next key. */
  function Seen(ps: seq<Param>, comma: bool): seq<Pair> {
    if ps == [] then []
    else
      [Pair(if comma then "," + (ps[0].before + ps[0].key) else ps[0].key, ps[0].value)] +
      Seen(ps[1..], ps[0].quoted && ps[0].gap != "")
  }

  ghost predicate AllValid(ps: seq<Param>) {
    forall p :: p in ps ==> p.Valid()
  }

  /** The scanner in front of a key, which may have a stray comma before it. */
  lemma FrontOfKey(p: Param, comma: bool, rest: string) returns (core: string)
    requires p.Valid()
    ensures core == if comma then "," + (p.before + p.key) else p.key
    ensures core != "" && !IsBlank(core[0]) && !IsBlank(core[|core| - 1]) && '=' !in core
    ensures Scan((if comma then "," else "") + (Front(p) + rest)) == Scan((core + p.mid) + rest)
  {
    hide Scan;
    NotBlank(p.before, '=');
    if comma {
      core := "," + (p.before + p.key);
      assert "," + (Front(p) + rest) == (core + p.mid) + rest;
    } else {
      core := p.key;
      assert "" + (Front(p) + rest) == p.before + ((core + p.mid) + rest);
      ScanSkipsBlank(p.before, (core + p.mid) + rest);
    }
  }

  /** What is scanned behind the value of the first parameter. */
  lemma BehindQuoted(ps: seq<Param>)
    requires ps != [] && ps[0].Valid()
    ensures Scan(AfterQuoted(Back(ps))) ==
            if |ps| == 1 then [] else Scan((if ps[0].gap == "" then "" else ",") + Render(ps[1..]))
  {
    hide Scan;
    hide Render;
    var gap := ps[0].gap;
    if |ps| == 1 {
      assert gap + "" == gap;
      assert gap != "" ==> gap[0] in gap;
      ScanOfBlank(gap);
    } else {
      var more := "," + Render(ps[1..]);
      if gap == "" {
        assert gap + more == more && more[1..] == Render(ps[1..]) && "" + Render(ps[1..]) == Render(ps[1..]);
        ScanAfterSkip(Render(ps[1..]));
      } else {
        assert (gap + more)[0] == gap[0] && gap[0] in gap;
        ScanSkipsBlank(gap, more);
      }
    }
  }

  lemma {:induction false} ScanFrom(ps: seq<Param>, comma: bool)
    requires AllValid(ps) && (ps == [] ==> !comma)
    ensures Scan((if comma then "," else "") + Render(ps)) == Seen(ps, comma)
    decreases |ps|
  {
    if ps == [] {
      ScanOfBlank("");
      assert "" + Render(ps) == "";
    } else {
      var p, rest := ps[0], ps[1..];
      assert p in ps && forall q :: q in rest ==> q in ps;
      hide Scan;
      hide AfterQuoted;
      var core := FrontOfKey(p, comma, "=" + (p.after + (p.Value() + Back(ps))));
      if p.quoted {
        ScanQuoted(core, p, Back(ps));
        BehindQuoted(ps);
        if rest != [] { ScanFrom(rest, p.gap != ""); }
      } else {
        var back := if rest == [] then "" else "," + Render(rest);
        ScanUnquoted(core, p, back);
        if rest == [] {
          ScanOfBlank("");
        } else {
          assert back[1..] == Render(rest) && "" + Render(rest) == Render(rest);
          ScanFrom(rest, false);
        }
      }
    }
  }

  /** The source's restriction: a comma directly follows each quoted value that is not the last. */
  ghost predicate CommasAreDirect(ps: seq<Param>) {
    forall i :: 0 <= i < |ps| - 1 && ps[i].quoted ==> ps[i].gap == ""
  }

  lemma {:induction false} SeenIsMeant(ps: seq<Param>, comma: bool)
    requires AllValid(ps)
    ensures Seen(ps, comma) == Meant(ps) <==> (ps == [] || !comma) && CommasAreDirect(ps)
    decreases |ps|
  {
    if ps != [] {
      var p, rest := ps[0], ps[1..];
      assert p in ps && forall q :: q in rest ==> q in ps;
      var stray := p.quoted && p.gap != "";
      SeenIsMeant(rest, stray);
      CommasOfRest(ps);
      hide CommasAreDirect;
      var key := "," + (p.before + p.key);
      assert |key| > |p.key|;
      assert Seen(ps, comma)[1..] == Seen(rest, stray) && Meant(ps)[1..] == Meant(rest);
      assert Seen(ps, comma)[0] == Pair(if comma then key else p.key, p.value) && Meant(ps)[0] == Pair(p.key, p.value);
    }
  }

  lemma CommasOfRest(ps: seq<Param>)
    requires ps != []
    ensures CommasAreDirect(ps) <==> (|ps| > 1 && ps[0].quoted ==> ps[0].gap == "") && CommasAreDirect(ps[1..])
  {
    var rest := ps[1..];
    if CommasAreDirect(ps) {
      forall i | 0 <= i < |rest| - 1 && rest[i].quoted
        ensures rest[i].gap == ""
      {
        assert rest[i] == ps[i + 1];
      }
    }
    if CommasAreDirect(rest) {
      forall i | 1 <= i < |ps| - 1 && ps[i].quoted
        ensures ps[i].gap == ""
      {
        assert rest[i - 1] == ps[i];
      }
    }
  }

  /** For every list of parameters, whose quoted values may contain commas and equals signs, the scanner finds
      exactly these parameters in order, if and only if a comma directly follows each quoted value but the last. */
  lemma {:induction false} ScanList(ps: seq<Param>)
    requires AllValid(ps)
    ensures Scan(Render(ps)) == Meant(ps) <==> CommasAreDirect(ps)
  {
    hide Scan;
    hide Render;
    hide Seen;
    hide Meant;
    hide CommasAreDirect;
    ScanFrom(ps, false);
    assert "" + Render(ps) == Render(ps);
    SeenIsMeant(ps, false);
  }

  // ----- the fields afterwards -----

  /** The value of the last pair with the key, or `old` without one. */
  function LastValue(pairs: seq<Pair>, key: string, was: string): string {
    if pairs == [] then was
    else
      var last := pairs[|pairs| - 1];
      if last.key == key then last.value else LastValue(pairs[..|pairs| - 1], key, was)
  }

  lemma {:induction false} StoreAllSnoc(f: Fields, pairs: seq<Pair>, p: Pair)
    ensures StoreAll(f, pairs + [p]) == Store(StoreAll(f, pairs), p)
    decreases |pairs|
  {
    hide Store;
    if pairs == [] {
      assert [] + [p] == [p] && [p][1..] == [];
    } else {
      assert (pairs + [p])[0] == pairs[0] && (pairs + [p])[1..] == pairs[1..] + [p];
      StoreAllSnoc(Store(f, pairs[0]), pairs[1..], p);
    }
  }

  /** Each field gets its last occurrence; a field that does not occur keeps its value. */
  lemma {:induction false} LastOccurrenceWins(f: Fields, pairs: seq<Pair>)
    ensures StoreAll(f, pairs) == Fields(LastValue(pairs, "realm", f.realm), LastValue(pairs, "nonce", f.nonce),
                                         LastValue(pairs, "algorithm", f.algorithm), LastValue(pairs, "qop", f.qop))
    decreases |pairs|
  {
    if pairs != [] {
      var n := |pairs| - 1;
      LastOccurrenceWins(f, pairs[..n]);
      assert pairs[..n] + [pairs[n]] == pairs;
      StoreAllSnoc(f, pairs[..n], pairs[n]);
      hide StoreAll;
    }
  }

  /** A Digest challenge: "Digest", a space, and a list with direct commas. */
  lemma {:induction false} ChallengeSetsFields(f: Fields, ps: seq<Param>)
    requires AllValid(ps) && CommasAreDirect(ps)
    ensures Challenged(f, "Digest " + Render(ps)) ==
            Fields(LastValue(Meant(ps), "realm", f.realm), LastValue(Meant(ps), "nonce", f.nonce),
                   LastValue(Meant(ps), "algorithm", f.algorithm), LastValue(Meant(ps), "qop", f.qop))
  {
    hide Scan;
    hide Render;
    hide Meant;
    hide LastValue;
    ScanList(ps);
    LastOccurrenceWins(f, Meant(ps));
    var challenge := "Digest " + Render(ps);
    assert challenge[..6] == "Digest" && challenge[7..] == Render(ps);
  }

  // ----- names that differ in letter case (sections 11.1 and 11.2 of RFC 9110) -----

  /** The standard's reading: the value of the last pair whose name is the key up to letter case. */
  function StandardValue(pairs: seq<Pair>, key: string, was: string): string {
    if pairs == [] then was
    else
      var last := pairs[|pairs| - 1];
      if ToLower(last.key) == key then last.value else StandardValue(pairs[..|pairs| - 1], key, was)
  }

  function StandardFields(f: Fields, pairs: seq<Pair>): Fields {
    Fields(StandardValue(pairs, "realm", f.realm), StandardValue(pairs, "nonce", f.nonce),
           StandardValue(pairs, "algorithm", f.algorithm), StandardValue(pairs, "qop", f.qop))
  }

  /** The last name that is the key up to letter case is the key itself. */
  predicate LastIsExact(names: seq<string>, key: string) {
    names == [] ||
    var last := names[|names| - 1];
    if ToLower(last) == key then last == key else LastIsExact(names[..|names| - 1], key)
  }

  predicate AllExact(names: seq<string>) {
    && LastIsExact(names, "realm") && LastIsExact(names, "nonce")
    && LastIsExact(names, "algorithm") && LastIsExact(names, "qop")
  }

  function Pairs(names: seq<string>, values: seq<string>): (r: seq<Pair>)
    requires |names| == |values|
    ensures |r| == |names|
  {
    if names == [] then []
    else
      var n := |names| - 1;
      Pairs(names[..n], values[..n]) + [Pair(names[n], values[n])]
  }

  lemma {:induction false} ExactIsStandard(names: seq<string>, values: seq<string>, key: string, was: string)
    requires |names| == |values| && LastIsExact(names, key) && ToLower(key) == key
    ensures LastValue(Pairs(names, values), key, was) == StandardValue(Pairs(names, values), key, was)
    decreases |names|
  {
    hide ToLower;
    if names != [] {
      var n := |names| - 1;
      assert Pairs(names, values)[..n] == Pairs(names[..n], values[..n]);
      if ToLower(names[n]) != key {
        ExactIsStandard(names[..n], values[..n], key, was);
      }
    }
  }

  /** Values that tell the two readings apart: "x" for the last name, and nothing elsewhere. */
  lemma {:induction false} InexactDiffers(names: seq<string>, key: string) returns (values: seq<string>)
    requires !LastIsExact(names, key) && ToLower(key) == key
    ensures |values| == |names|
    ensures StandardValue(Pairs(names, values), key, "") == "x" && LastValue(Pairs(names, values), key, "") == ""
    decreases |names|
  {
    hide ToLower;
    var n := |names| - 1;
    if ToLower(names[n]) == key {
      values := seq(n, _ => "") + ["x"];
      assert values[..n] == seq(n, _ => "");
      assert Pairs(names, values)[..n] == Pairs(names[..n], values[..n]);
      NothingFound(names[..n], values[..n], key);
    } else {
      var front := InexactDiffers(names[..n], key);
      values := front + [""];
      assert values[..n] == front;
      assert Pairs(names, values)[..n] == Pairs(names[..n], front);
    }
  }

  lemma {:induction false} NothingFound(names: seq<string>, values: seq<string>, key: string)
    requires |names| == |values| && forall v :: v in values ==> v == ""
    ensures LastValue(Pairs(names, values), key, "") == ""
    decreases |names|
  {
    if names != [] {
      var n := |names| - 1;
      assert values[n] in values && forall v :: v in values[..n] ==> v in values;
      assert Pairs(names, values)[..n] == Pairs(names[..n], values[..n]);
      NothingFound(names[..n], values[..n], key);
    }
  }

  lemma KeysAreLower()
    ensures ToLower("realm") == "realm" && ToLower("nonce") == "nonce"
    ensures ToLower("algorithm") == "algorithm" && ToLower("qop") == "qop"
  {
  }

  /** The parameters are stored as the standard reads them, whatever their values, if and only if of each of the
      four names the last occurrence is spelt in lower case. */
  lemma {:induction false} StoresAsStandard(names: seq<string>)
    ensures AllExact(names) <==>
            forall f: Fields, values: seq<string> | |values| == |names| ::
              StoreAll(f, Pairs(names, values)) == StandardFields(f, Pairs(names, values))
  {
    KeysAreLower();
    hide ToLower;
    hide LastIsExact;
    hide Pairs;
    hide StoreAll;
    if AllExact(names) {
      forall f: Fields, values: seq<string> | |values| == |names|
        ensures StoreAll(f, Pairs(names, values)) == StandardFields(f, Pairs(names, values))
      {
        LastOccurrenceWins(f, Pairs(names, values));
        ExactIsStandard(names, values, "realm", f.realm);
        ExactIsStandard(names, values, "nonce", f.nonce);
        ExactIsStandard(names, values, "algorithm", f.algorithm);
        ExactIsStandard(names, values, "qop", f.qop);
      }
    } else {
      var key := InexactKey(names);
      var values := InexactDiffers(names, key);
      var f := Fields("", "", "", "");
      LastOccurrenceWins(f, Pairs(names, values));
      assert StoreAll(f, Pairs(names, values)) != StandardFields(f, Pairs(names, values));
    }
  }

  lemma InexactKey(names: seq<string>) returns (key: string)
    requires !AllExact(names)
    ensures !LastIsExact(names, key) && (key == "realm" || key == "nonce" || key == "algorithm" || key == "qop")
  {
    key := if !LastIsExact(names, "realm") then "realm"
           else if !LastIsExact(names, "nonce") then "nonce"
           else if !LastIsExact(names, "algorithm") then "algorithm"
           else "qop";
  }

  function Names(ps: seq<Param>): (r: seq<string>)
    ensures |r| == |ps|
  {
    seq(|ps|, i requires 0 <= i < |ps| => ps[i].key)
  }

  function Values(ps: seq<Param>): (r: seq<string>)
    ensures |r| == |ps|
  {
    seq(|ps|, i requires 0 <= i < |ps| => ps[i].value)
  }

  lemma {:induction false} MeantSnoc(ps: seq<Param>)
    requires ps != []
    ensures var n := |ps| - 1; Meant(ps) == Meant(ps[..n]) + [Pair(ps[n].key, ps[n].value)]
  {
    var n := |ps| - 1;
    if n == 0 {
      assert ps[..0] == [] && ps[1..] == [];
    } else {
      MeantSnoc(ps[1..]);
      assert ps[1..][..n - 1] == ps[..n][1..];
    }
  }

  lemma {:induction false} MeantIsPairs(ps: seq<Param>)
    ensures Meant(ps) == Pairs(Names(ps), Values(ps))
  {
    if ps != [] {
      var n := |ps| - 1;
      MeantIsPairs(ps[..n]);
      MeantSnoc(ps);
      assert Names(ps)[..n] == Names(ps[..n]) && Values(ps)[..n] == Values(ps[..n]);
    }
  }

  /** So a Digest challenge with direct commas and such names is understood as the standard says. */
  lemma ChallengeAsStandard(f: Fields, ps: seq<Param>)
    requires AllValid(ps) && CommasAreDirect(ps) && AllExact(Names(ps))
    ensures Challenged(f, "Digest " + Render(ps)) == StandardFields(f, Meant(ps))
  {
    hide Render;
    hide Meant;
    hide Pairs;
    hide StandardFields;
    hide AllExact;
    hide CommasAreDirect;
    hide AllValid;
    hide Challenged;
    ChallengeSetsFields(f, ps);
    LastOccurrenceWins(f, Meant(ps));
    MeantIsPairs(ps);
    StoresAsStandard(Names(ps));
  }

  /** The scheme name is accepted in two of its spellings. */
  lemma SchemeSpelling(scheme: string, rest: string)
    requires ToLower(scheme) == "digest"
    ensures IsDigest(scheme + rest) <==> scheme == "Digest" || scheme == "digest"
  {
    assert |scheme| == 6 && (scheme + rest)[..6] == scheme;
  }

  // ----- the code -----

  class DigestAuth {
    var realm: string
    var nonce: string
    var algorithm: string
    var qop: string
    var cnonce: string

    function State(): Fields
      reads this
    {
      Fields(realm, nonce, algorithm, qop)
    }

    constructor ()
      ensures State() == Fields("", "", "", "") && cnonce == ""
    {
      realm, nonce, algorithm, qop, cnonce := "", "", "", "", "";
    }

    /** process_challenge, with the freshly generated client nonce. */
    method ProcessChallenge(challenge: string, freshNonce: string)
      modifies this
      ensures State() == Challenged(old(State()), challenge) && cnonce == freshNonce
    {
      hide Scan;
      hide Store;
      if IsDigest(challenge) {
        var header := challenge[6..];
        if header != "" && header[0] == ' ' {
          header := header[1..];
        }
        assert header == Body(challenge);
        var pos := 0;
        assert header[0..] == header;
        while pos < |header|
          invariant pos <= |header|
          invariant StoreAll(State(), Scan(header[pos..])) == StoreAll(old(State()), Scan(header))
        {
          var pair, next := NextPair(header, pos);
          if pair.None? { break; }
          assert ([pair.value] + Scan(header[next..]))[1..] == Scan(header[next..]);
          StorePair(pair.value);
          pos := next;
        }
        ScanOfBlank("");
        assert pos == |header| ==> header[pos..] == "";
      }
      cnonce := freshNonce;
    }

    /** The assignments at the end of the loop body. */
    method StorePair(p: Pair)
      modifies this
      ensures State() == Store(old(State()), p) && cnonce == old(cnonce)
    {
      if p.key == "realm" {
        realm := p.value;
      } else if p.key == "nonce" {
        nonce := p.value;
      } else if p.key == "algorithm" {
        algorithm := p.value;
      } else if p.key == "qop" {
        qop := p.value;
      }
    }
  }

  method SkipBlanks(s: string, from: nat) returns (pos: nat)
    requires from <= |s|
    ensures from <= pos <= |s| && s[pos..] == SkipBlank(s[from..])
  {
    pos := from;
    while pos < |s| && IsBlank(s[pos])
      invariant from <= pos <= |s| && SkipBlank(s[pos..]) == SkipBlank(s[from..])
    {
      assert s[pos..][0] == s[pos] && s[pos..][1..] == s[pos + 1..];
      pos := pos + 1;
    }
    assert pos < |s| ==> s[pos..][0] == s[pos];
  }

  /** The value at `from`, and the position of what is left to scan. */
  method ReadValue(s: string, from: nat) returns (value: Option<string>, pos: nat)
    requires from < |s|
    ensures if value.None? then TakeValue(s[from..]) == None
            else from < pos <= |s| && TakeValue(s[from..]) == Some((value.value, s[pos..]))
  {
    hide CutAt;
    hide TrimBlank;
    hide SkipBlank;
    pos := from;
    ghost var v := s[from..];
    assert v[0] == s[pos];
    if s[pos] == '"' {
      pos := pos + 1;
      assert v[1..] == s[pos..];
      CutAtPosition(s, '"', pos);
      var end := FindChar(s, '"', pos);
      if end.None? { return None, pos; }
      value := Some(s[pos..end.value]);
      pos := end.value + 1;
      ghost var rest := s[pos..];
      if pos < |s| && s[pos] == ',' {
        assert rest[0] == s[pos] && rest[1..] == s[pos + 1..];
        pos := SkipBlanks(s, pos + 1);
      } else {
        assert pos < |s| ==> rest[0] == s[pos];
      }
    } else {
      CutAtPosition(s, ',', pos);
      var end := FindChar(s, ',', pos);
      value := Some(TrimBlank(if end.None? then s[pos..] else s[pos..end.value]));
      pos := if end.None? then |s| else end.value + 1;
      assert s[|s|..] == "";
    }
  }

  /** One round of the loop: the pair found from `from` on and the position behind it; None where the loop breaks. */
  method NextPair(s: string, from: nat) returns (pair: Option<Pair>, pos: nat)
    requires from < |s|
    ensures if pair.None? then Scan(s[from..]) == []
            else from < pos <= |s| && Scan(s[from..]) == [pair.value] + Scan(s[pos..])
  {
    hide CutAt;
    hide TrimBlank;
    hide SkipBlank;
    hide TakeValue;
    pos := SkipBlanks(s, from);
    CutAtPosition(s, '=', pos);
    var eq := FindChar(s, '=', pos);
    if eq.None? { return None, pos; }
    var key := TrimBlank(s[pos..eq.value]);
    pos := SkipBlanks(s, eq.value + 1);
    if pos >= |s| { return None, pos; }
    var value;
    value, pos := ReadValue(s, pos);
    pair := if value.None? then None else Some(Pair(key, value.value));
  }
}
