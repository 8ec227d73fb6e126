/** The case-insensitive header map of types.hpp. */
module HeaderMap {
  import opened Text

  // ----- CaseInsensitiveLess -----

  predicate CaseInsensitiveLess(a: string, b: string) {
    if b == "" then false
    else if a == "" then true
    else if LowerChar(a[0]) < LowerChar(b[0]) then true
    else if LowerChar(b[0]) < LowerChar(a[0]) then false
    else CaseInsensitiveLess(a[1..], b[1..])
  }

  /** Two keys are equivalent for the ordered map exactly when they agree up to letter case,
      and of two other keys exactly one comes first. */
  lemma {:induction false} LessTrichotomy(a: string, b: string)
    ensures !(CaseInsensitiveLess(a, b) && CaseInsensitiveLess(b, a))
    ensures !CaseInsensitiveLess(a, b) && !CaseInsensitiveLess(b, a) <==> ToLower(a) == ToLower(b)
  {
    if a != "" && b != "" {
      assert ToLower(a) == [LowerChar(a[0])] + ToLower(a[1..]);
      assert ToLower(b) == [LowerChar(b[0])] + ToLower(b[1..]);
      LessTrichotomy(a[1..], b[1..]);
      if ToLower(a) == ToLower(b) {
        assert ToLower(a)[1..] == ToLower(a[1..]);
      }
    }
  }

  lemma {:induction false} LessTransitive(a: string, b: string, c: string)
    requires CaseInsensitiveLess(a, b) && CaseInsensitiveLess(b, c)
    ensures CaseInsensitiveLess(a, c)
  {
    if a != "" && LowerChar(a[0]) == LowerChar(b[0]) && LowerChar(b[0]) == LowerChar(c[0]) {
      LessTransitive(a[1..], b[1..], c[1..]);
    }
  }

  // ----- the map -----

  /** The spelling under which a key was first inserted, and its current value. */
  datatype Field = Field(name: string, value: string)

  /** std::map<std::string, std::string, CaseInsensitiveLess>, indexed by the lower-case form of the key;
      LessTrichotomy is what makes that form the identity of a key. */
  type Headers = map<string, Field>

  /** headers.find(key) */
  function Get(h: Headers, key: string): Option<string> {
    if ToLower(key) in h then Some(h[ToLower(key)].value) else None
  }

  /** headers[key] = value: an existing entry keeps its spelling. */
  function Put(h: Headers, key: string, value: string): Headers {
    var k := ToLower(key);
    h[k := Field(if k in h then h[k].name else key, value)]
  }

  /** Writing under one spelling is seen under every spelling, and the spelling written first stays. */
  lemma PutThenGet(h: Headers, key: string, value: string, other: string)
    ensures Get(Put(h, key, value), other) == if ToLower(other) == ToLower(key) then Some(value) else Get(h, other)
    ensures ToLower(other) in h ==>
              var after := Put(h, key, value);
              ToLower(other) in after && after[ToLower(other)].name == h[ToLower(other)].name
    ensures ToLower(key) !in h ==> Put(h, key, value)[ToLower(key)].name == key
  {
  }

  /** headers.erase(key) */
  function Erase(h: Headers, key: string): Headers {
    h - {ToLower(key)}
  }

  /** headers.insert(range): entries already present win. */
  function InsertAll(h: Headers, other: Headers): Headers {
    other + h
  }

  /** One field line: the key in front of the first colon and the cleaned value behind it; a line without
      a colon is skipped. */
  function AddField(h: Headers, line: string, clean: string -> string): Headers {
    var colon := FindChar(line, ':', 0);
    if colon.None? then h else Put(h, line[..colon.value], clean(line[colon.value + 1..]))
  }
}
