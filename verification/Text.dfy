/** Byte strings and the few std::string and <cctype> operations the client relies on.
    A string is a sequence of characters with codes 0..255; nothing below depends on the upper bound. */
module Text {
  datatype Option<+T> = None | Some(value: T)

  function OrEmpty(text: Option<string>): string {
    if text.None? then "" else text.value
  }

  const CRLF := "\r\n"

  // ----- searching: std::string::find -----

  predicate OccursAt(s: string, p: string, i: nat) {
    i + |p| <= |s| && s[i..i + |p|] == p
  }

  /** Leftmost occurrence of `p` in `s` that starts at or after `from`. */
  function Find(s: string, p: string, from: nat): (r: Option<nat>)
    ensures r.Some? ==> from <= r.value && OccursAt(s, p, r.value)
    ensures r.Some? ==> forall j :: from <= j < r.value ==> !OccursAt(s, p, j)
    ensures r.None? ==> forall j :: from <= j ==> !OccursAt(s, p, j)
    decreases |s| - from
  {
    if from + |p| > |s| then None
    else if OccursAt(s, p, from) then Some(from)
    else Find(s, p, from + 1)
  }

  /** Leftmost position of the character `c` at or after `from`. */
  function FindChar(s: string, c: char, from: nat): (r: Option<nat>)
    requires from <= |s|
    ensures r.Some? ==> from <= r.value < |s|
    decreases |s| - from
  {
    if from == |s| then None else if s[from] == c then Some(from) else FindChar(s, c, from + 1)
  }

  lemma {:induction false} FindCharFirst(s: string, c: char, from: nat)
    requires from <= |s|
    ensures var r := FindChar(s, c, from);
            if r.None? then c !in s[from..] else s[r.value] == c && c !in s[from..r.value]
    decreases |s| - from
  {
    if from < |s| && s[from] != c {
      FindCharFirst(s, c, from + 1);
      assert s[from..] == [s[from]] + s[from + 1..];
      var r := FindChar(s, c, from + 1);
      assert r.Some? ==> s[from..r.value] == [s[from]] + s[from + 1..r.value];
    }
  }

  lemma {:induction false} FindCharIs(s: string, c: char, from: nat, k: nat)
    requires from <= k < |s| && s[k] == c && c !in s[from..k]
    ensures FindChar(s, c, from) == Some(k)
    decreases k - from
  {
    if from < k {
      assert s[from..k] == [s[from]] + s[from + 1..k];
      FindCharIs(s, c, from + 1, k);
    }
  }

  lemma {:induction false} FindCharNone(s: string, c: char, from: nat)
    requires from <= |s| && c !in s[from..]
    ensures FindChar(s, c, from) == None
    decreases |s| - from
  {
    if from < |s| {
      assert s[from..] == [s[from]] + s[from + 1..];
      FindCharNone(s, c, from + 1);
    }
  }

  lemma {:induction false} FindCharShift(a: string, b: string, c: char, from: nat)
    requires from <= |b|
    ensures FindChar(a + b, c, |a| + from) ==
            if FindChar(b, c, from).None? then None else Some(|a| + FindChar(b, c, from).value)
    decreases |b| - from
  {
    if from < |b| {
      assert (a + b)[|a| + from] == b[from];
      FindCharShift(a, b, c, from + 1);
    }
  }

  lemma {:induction false} FindCharSkip(a: string, b: string, c: char, from: nat)
    requires from <= |a| && c !in a
    ensures FindChar(a + b, c, from) == FindChar(a + b, c, |a|)
    decreases |a| - from
  {
    if from < |a| {
      assert (a + b)[from] == a[from] && a[from] in a;
      FindCharSkip(a, b, c, from + 1);
    }
  }

  lemma FindCharBehind(a: string, b: string, c: char)
    requires c !in a
    ensures FindChar(a + b, c, 0) == if FindChar(b, c, 0).None? then None else Some(|a| + FindChar(b, c, 0).value)
  {
    FindCharSkip(a, b, c, 0);
    FindCharShift(a, b, c, 0);
  }

  /** The text in front of the first `c`, and the text behind it if there is one. */
  function CutAt(s: string, c: char): (r: (string, Option<string>))
    ensures r.1.Some? ==> |r.1.value| < |s|
  {
    var k := FindChar(s, c, 0);
    if k.None? then (s, None) else (s[..k.value], Some(s[k.value + 1..]))
  }

  lemma CutAtBehind(a: string, b: string, c: char)
    requires c !in a
    ensures CutAt(a + b, c) == (a + CutAt(b, c).0, CutAt(b, c).1)
  {
    FindCharBehind(a, b, c);
    var k := FindChar(b, c, 0);
    if k.Some? {
      assert (a + b)[..|a| + k.value] == a + b[..k.value];
      assert (a + b)[|a| + k.value + 1..] == b[k.value + 1..];
    }
  }

  lemma CutAtOwn(c: char, rest: string)
    ensures CutAt([c] + rest, c) == ("", Some(rest))
  {
    assert ([c] + rest)[..0] == "" && ([c] + rest)[1..] == rest;
  }

  lemma CutAtRejoins(s: string, c: char)
    ensures var (front, rest) := CutAt(s, c);
            c !in front && s == front + if rest.None? then "" else [c] + rest.value
  {
    FindCharFirst(s, c, 0);
    assert s[0..] == s;
    var k := FindChar(s, c, 0);
    if k.Some? {
      assert s[0..k.value] == s[..k.value];
    }
  }

  lemma CutAtPosition(s: string, c: char, pos: nat)
    requires pos <= |s|
    ensures var k := FindChar(s, c, pos);
            CutAt(s[pos..], c) == if k.None? then (s[pos..], None) else (s[pos..k.value], Some(s[k.value + 1..]))
  {
    hide FindChar;
    assert s[..pos] + s[pos..] == s;
    FindCharShift(s[..pos], s[pos..], c, 0);
    var k := FindChar(s[pos..], c, 0);
    if k.Some? {
      SliceOfRest(s, pos, k.value);
      SliceOfRest(s, pos, k.value + 1);
    }
  }

  lemma SliceOfRest(s: string, start: nat, n: nat)
    requires start + n <= |s|
    ensures s[start..][..n] == s[start..start + n] && s[start..][n..] == s[start + n..]
  {
  }

  predicate Contains(s: string, p: string) {
    Find(s, p, 0).Some?
  }

  lemma FindIs(s: string, p: string, from: nat, k: nat)
    requires from <= k && OccursAt(s, p, k)
    requires forall j :: from <= j < k ==> !OccursAt(s, p, j)
    ensures Find(s, p, from) == Some(k)
  {
    var r := Find(s, p, from);
    assert r.Some?;
    assert !(r.value < k);
    assert !(k < r.value);
  }

  lemma OccursAtAppend(s: string, t: string, p: string, i: nat)
    requires i + |p| <= |s|
    ensures OccursAt(s + t, p, i) <==> OccursAt(s, p, i)
  {
    assert (s + t)[i..i + |p|] == s[i..i + |p|];
  }

  /** A first occurrence stays the first occurrence when more bytes are appended. */
  lemma FindStable(s: string, t: string, p: string, from: nat)
    requires Find(s, p, from).Some?
    ensures Find(s + t, p, from) == Find(s, p, from)
  {
    var k := Find(s, p, from).value;
    OccursAtAppend(s, t, p, k);
    forall j | from <= j < k
      ensures !OccursAt(s + t, p, j)
    {
      OccursAtAppend(s, t, p, j);
    }
    FindIs(s + t, p, from, k);
  }

  lemma OccursAtBehind(pre: string, s: string, p: string, j: nat)
    ensures OccursAt(pre + s, p, |pre| + j) <==> OccursAt(s, p, j)
  {
    if j + |p| <= |s| {
      assert (pre + s)[|pre| + j..|pre| + j + |p|] == s[j..j + |p|];
    }
  }

  /** Searching behind a prefix is searching the rest. */
  lemma FindBehind(pre: string, s: string, p: string)
    ensures Find(pre + s, p, |pre|) == if Find(s, p, 0).None? then None else Some(|pre| + Find(s, p, 0).value)
  {
    hide OccursAt;
    hide Find;
    var inside, behind := Find(s, p, 0), Find(pre + s, p, |pre|);
    if behind.Some? {
      OccursAtBehind(pre, s, p, behind.value - |pre|);
    }
    if inside.Some? {
      OccursAtBehind(pre, s, p, inside.value);
    }
  }

  /** The first CRLF after text without carriage returns is the CRLF written behind it. */
  lemma FindCrlf(pre: string, line: string, rest: string)
    requires '\r' !in line
    ensures Find(pre + line + CRLF + rest, CRLF, |pre|) == Some(|pre| + |line|)
  {
    var s := pre + line + CRLF + rest;
    var k := |pre| + |line|;
    assert s[k..k + 2] == CRLF;
    forall j | |pre| <= j < k
      ensures !OccursAt(s, CRLF, j)
    {
      assert s[j] == line[j - |pre|];
      assert s[j] != '\r';
    }
    FindIs(s, CRLF, |pre|, k);
  }

  /** std::string::substr(pos, count) for pos <= size. */
  function Substr(s: string, pos: nat, count: nat): string
    requires pos <= |s|
  {
    s[pos..if pos + count <= |s| then pos + count else |s|]
  }

  // ----- character classes of the "C" locale -----

  predicate IsSpace(c: char) {
    c == ' ' || '\t' <= c <= '\r'
  }

  /** isspace in the C locale: blank, tab, line feed, vertical tab, form feed and carriage return. */
  lemma SpaceCharacters(c: char)
    ensures IsSpace(c) <==> c in {' ', '\t', '\n', 11 as char, 12 as char, '\r'}
  {
  }

  function LowerChar(c: char): char {
    if 'A' <= c <= 'Z' then (c as int + 32) as char else c
  }

  function ToLower(s: string): (r: string)
    ensures |r| == |s|
  {
    seq(|s|, i requires 0 <= i < |s| => LowerChar(s[i]))
  }

  const CAPITALS := "ABCDEFGHIJKLMNOPQRSTUVWXYZ"
  const SMALL_LETTERS := "abcdefghijklmnopqrstuvwxyz"

  /** tolower in the C locale changes the 26 capital letters and nothing else. */
  lemma LowerLetters(c: char, i: nat)
    requires i < 26
    ensures LowerChar(CAPITALS[i]) == SMALL_LETTERS[i]
    ensures c !in CAPITALS ==> LowerChar(c) == c
  {
    if 'A' <= c <= 'Z' {
      assert CAPITALS[c as int - 'A' as int] == c;
    }
  }

  // ----- trimming -----

  predicate AllSpace(s: string) {
    forall c :: c in s ==> IsSpace(c)
  }

  function TrimLeft(s: string): string
  {
    if s != "" && IsSpace(s[0]) then TrimLeft(s[1..]) else s
  }

  function TrimRight(s: string): string
  {
    if s != "" && IsSpace(s[|s| - 1]) then TrimRight(s[..|s| - 1]) else s
  }

  /** Only white space is cut off. */
  lemma {:induction false} TrimLeftCuts(s: string) returns (blank: string)
    ensures AllSpace(blank) && s == blank + TrimLeft(s)
    ensures TrimLeft(s) != "" ==> !IsSpace(TrimLeft(s)[0])
  {
    blank := "";
    if s != "" && IsSpace(s[0]) {
      blank := TrimLeftCuts(s[1..]);
      blank := [s[0]] + blank;
    }
  }

  lemma {:induction false} TrimRightCuts(s: string) returns (blank: string)
    ensures AllSpace(blank) && s == TrimRight(s) + blank
    ensures TrimRight(s) != "" ==> !IsSpace(TrimRight(s)[|TrimRight(s)| - 1])
  {
    blank := "";
    if s != "" && IsSpace(s[|s| - 1]) {
      blank := TrimRightCuts(s[..|s| - 1]);
      assert s == s[..|s| - 1] + [s[|s| - 1]];
      blank := blank + [s[|s| - 1]];
    }
  }

  function Trim(s: string): string {
    TrimRight(TrimLeft(s))
  }

  lemma TrimLeftSkips(a: string, s: string)
    requires AllSpace(a)
    ensures TrimLeft(a + s) == TrimLeft(s)
  {
    if a == "" {
      assert a + s == s;
    } else {
      assert (a + s)[1..] == a[1..] + s;
      TrimLeftSkips(a[1..], s);
    }
  }

  /** An occurrence of a word cannot reach into surrounding white space. */
  lemma OccursInCore(a: string, s: string, b: string, p: string, i: nat)
    requires AllSpace(a) && AllSpace(b) && OccursAt(a + s + b, p, i)
    requires p != "" && !IsSpace(p[0]) && !IsSpace(p[|p| - 1])
    ensures |a| <= i && i + |p| <= |a| + |s|
  {
    var w, last := a + s + b, i + |p| - 1;
    assert w[i] == p[0] && w[last] == p[|p| - 1] by {
      assert w[i..i + |p|][0] == w[i] && w[i..i + |p|][|p| - 1] == w[last];
    }
    SpaceEverywhere(a);
    SpaceEverywhere(b);
  }

  lemma SpaceEverywhere(s: string)
    requires AllSpace(s)
    ensures forall i :: 0 <= i < |s| ==> IsSpace(s[i])
  {
  }

  /** White space around a text never creates or hides an occurrence of a word. */
  lemma ContainsIgnoresOuterSpace(a: string, s: string, b: string, p: string)
    requires AllSpace(a) && AllSpace(b)
    requires p != "" && !IsSpace(p[0]) && !IsSpace(p[|p| - 1])
    ensures Contains(a + s + b, p) <==> Contains(s, p)
  {
    hide Find;
    hide AllSpace;
    if Contains(s, p) {
      var i := Find(s, p, 0).value;
      OccursAtShift(a, s, b, p, i);
    }
    if Contains(a + s + b, p) {
      var i := Find(a + s + b, p, 0).value;
      OccursInCore(a, s, b, p, i);
      OccursAtShift(a, s, b, p, i - |a|);
    }
  }

  lemma OccursAtShift(a: string, s: string, b: string, p: string, i: nat)
    requires i + |p| <= |s|
    ensures OccursAt(a + s + b, p, |a| + i) <==> OccursAt(s, p, i)
  {
    OccursAtBehind(a, s, p, i);
    OccursAtAppend(a + s, b, p, |a| + i);
  }

  lemma ToLowerConcat(a: string, b: string)
    ensures ToLower(a + b) == ToLower(a) + ToLower(b)
  {
  }

  // ----- joining -----

  function Concat(parts: seq<string>): string {
    if parts == [] then "" else parts[0] + Concat(parts[1..])
  }

  lemma ConcatPair(a: string, b: string)
    ensures Concat([a, b]) == a + b
  {
    assert [a, b][1..] == [b] && [b][1..] == [];
    assert Concat([b]) == b + Concat([]);
  }
}
