/** load_root_cert_pem_bundle of tls_linux.cpp (RFC 7468). The TLS library's answer to a certificate is the
    parameter `accept`; it may depend on the certificates offered before. */
module Pem {
  import opened Text
  import opened Bytes
  import Base64

  const BEGIN := "-----BEGIN CERTIFICATE-----"
  const END := "-----END CERTIFICATE-----"

  type Der = seq<Byte>

  /** Whether the loader succeeds, and the certificates it hands to the TLS library, in order. */
  datatype Outcome = Outcome(ok: bool, offered: seq<Der>)

  /** Where the text between the first `open` at or after `from` and the next `close` starts and ends. */
  function Between(s: string, from: nat, open: string, close: string): (r: Option<(nat, nat)>)
    ensures r.Some? ==> from <= r.value.0 <= r.value.1 <= |s| - |close|
  {
    var o := Find(s, open, from);
    if o.None? then None
    else
      var c := Find(s, close, o.value + |open|);
      if c.None? then None else Some((o.value + |open|, c.value))
  }

  /** The loader on the text `s`, after the certificates `before` have been accepted. */
  function Load(s: string, before: seq<Der>, accept: (seq<Der>, Der) -> bool): Outcome
    decreases |s|
  {
    var body := Between(s, 0, BEGIN, END);
    if body.None? then Outcome(before != [], before)
    else
      var der := Base64.Decode(s[body.value.0..body.value.1]);
      if der.None? then Outcome(false, before)
      else if !accept(before, der.value) then Outcome(false, before + [der.value])
      else Load(s[body.value.1 + |END|..], before + [der.value], accept)
  }

  // ----- bundles -----

  /** Some text without a begin marker, and a certificate with its base64 rendering. */
  datatype Entry = Entry(text: string, body: string, der: Der)

  ghost predicate WellFormed(e: Entry) {
    && Find(e.text + CERTIFICATE_START, CERTIFICATE_START, 0) == Some(|e.text|)
    && e.der != []
    && Base64.IsEncodingOf(e.body, e.der)
  }

  // the encapsulation boundaries of section 5.1 of RFC 7468
  const CERTIFICATE_START := "-----BEGIN CERTIFICATE-----"
  const CERTIFICATE_END := "-----END CERTIFICATE-----"

  lemma MarkersAre()
    ensures BEGIN == CERTIFICATE_START && END == CERTIFICATE_END
  {
  }

  /** The bundle from the entry `i` on. */
  function Render(entries: seq<Entry>, i: nat, tail: string): string
    requires i <= |entries|
    decreases |entries| - i
  {
    if i == |entries| then tail
    else
      var e := entries[i];
      e.text + (CERTIFICATE_START + (e.body + (CERTIFICATE_END + Render(entries, i + 1, tail))))
  }

  function Ders(entries: seq<Entry>): (r: seq<Der>)
    ensures |r| == |entries|
  {
    seq(|entries|, k requires 0 <= k < |entries| => entries[k].der)
  }

  // ----- finding the markers -----

  lemma {:induction false} DecodedIsLegal(s: string, val: nat, valb: int)
    requires Base64.DecodeFrom(s, val, valb).Some?
    ensures '-' !in s
  {
    hide Base64.Shift;
    hide Base64.ByteAt;
    if s != "" {
      assert s == [s[0]] + s[1..];
      if Base64.IsSkipped(s[0]) {
        DecodedIsLegal(s[1..], val, valb);
      } else {
        var val' := Base64.Shift(val, Base64.ValueOf(s[0])) % Base64.INT_MODULUS;
        DecodedIsLegal(s[1..], val', if valb + 6 < 0 then valb + 6 else valb - 2);
      }
    }
  }

  lemma NoOccurrenceIn(body: string, marker: string, back: string, j: nat)
    requires marker != "" && j < |body| && OccursAt(body + back, marker, j)
    ensures marker[0] in body
  {
    assert (body + back)[j..j + |marker|][0] == (body + back)[j] == body[j];
  }

  lemma {:induction false} FindBehindBody(body: string, marker: string, rest: string)
    requires marker != "" && marker[0] !in body
    ensures Find(body + (marker + rest), marker, 0) == Some(|body|)
  {
    var s := body + (marker + rest);
    assert s[|body|..|body| + |marker|] == marker;
    forall j | 0 <= j < |body|
      ensures !OccursAt(s, marker, j)
    {
      if OccursAt(s, marker, j) {
        NoOccurrenceIn(body, marker, marker + rest, j);
        assert false;
      }
    }
    FindIs(s, marker, 0, |body|);
  }

  lemma BodyAndRest(front: string, body: string, close: string, rest: string)
    ensures var s := front + (body + (close + rest));
            s[|front|..|front| + |body|] == body && s[|front| + |body| + |close|..] == rest
  {
  }

  /** The text between markers is found, however the text in front and the rest look. */
  lemma {:induction false} BetweenMarkers(text: string, open: string, body: string, close: string, rest: string)
    requires Find(text + open, open, 0) == Some(|text|)
    requires close != "" && close[0] !in body
    ensures var s := text + (open + (body + (close + rest)));
            var b := |text| + |open|;
            && Between(s, 0, open, close) == Some((b, b + |body|))
            && s[b..b + |body|] == body && s[b + |body| + |close|..] == rest
  {
    hide Find;
    hide OccursAt;
    var s := text + (open + (body + (close + rest)));
    var front, back := text + open, body + (close + rest);
    assert s == front + back;
    BodyAndRest(front, body, close, rest);
    FindStable(front, back, open, 0);
    FindBehindBody(body, close, rest);
    FindBehind(front, back, close);
  }

  lemma EndIsDashed()
    ensures END != "" && END[0] == '-'
  {
  }

  lemma {:induction false} NoDashInBody(e: Entry)
    requires WellFormed(e)
    ensures '-' !in e.body && Base64.Decode(e.body) == Some(e.der)
  {
    hide Find;
    hide Base64.DecodeFrom;
    Base64.RoundTrip(e.body, e.der);
    DecodedIsLegal(e.body, 0, -8);
  }

  lemma {:induction false} FirstEntry(e: Entry, rest: string)
    requires WellFormed(e)
    ensures var s := e.text + (BEGIN + (e.body + (END + rest)));
            var b := |e.text| + |BEGIN|;
            && Between(s, 0, BEGIN, END) == Some((b, b + |e.body|))
            && s[b..b + |e.body|] == e.body && s[b + |e.body| + |END|..] == rest
            && Base64.Decode(e.body) == Some(e.der)
  {
    hide Find;
    hide Between;
    hide BEGIN;
    hide END;
    hide CERTIFICATE_START;
    hide CERTIFICATE_END;
    MarkersAre();
    hide Base64.Decode;
    EndIsDashed();
    NoDashInBody(e);
    BetweenMarkers(e.text, BEGIN, e.body, END, rest);
  }

  lemma {:induction false} NothingBetween(tail: string)
    requires Find(tail, BEGIN, 0).None?
    ensures Between(tail, 0, BEGIN, END).None?
  {
  }

  /** One certificate: what the loader does with it. */
  lemma {:induction false} LoadEntry(e: Entry, rest: string, before: seq<Der>, accept: (seq<Der>, Der) -> bool)
    requires WellFormed(e)
    ensures Load(e.text + (BEGIN + (e.body + (END + rest))), before, accept) ==
            if accept(before, e.der) then Load(rest, before + [e.der], accept) else Outcome(false, before + [e.der])
  {
    hide WellFormed;
    hide Find;
    hide Between;
    hide Base64.Decode;
    hide BEGIN;
    hide END;
    FirstEntry(e, rest);
  }

  lemma {:induction false} LoadTail(tail: string, before: seq<Der>, accept: (seq<Der>, Der) -> bool)
    requires Find(tail, BEGIN, 0).None?
    ensures Load(tail, before, accept) == Outcome(before != [], before)
  {
    hide Find;
    hide Between;
    hide BEGIN;
    hide END;
    NothingBetween(tail);
  }

  lemma {:induction false} BundleFrom(entries: seq<Entry>, i: nat, tail: string, accept: (seq<Der>, Der) -> bool)
    returns (n: nat)
    requires i <= |entries|
    requires forall k :: i <= k < |entries| ==> WellFormed(entries[k])
    requires Find(tail, BEGIN, 0).None?
    ensures i <= n <= |entries|
    ensures var ders := Ders(entries);
            && (forall k :: i <= k < n ==> accept(ders[..k], ders[k]))
            && (n < |ders| ==> !accept(ders[..n], ders[n]))
            && Load(Render(entries, i, tail), ders[..i], accept) ==
               if n < |ders| then Outcome(false, ders[..n + 1]) else Outcome(ders != [], ders)
    decreases |entries| - i
  {
    hide WellFormed;
    hide Find;
    hide Load;
    hide BEGIN;
    hide END;
    hide CERTIFICATE_START;
    hide CERTIFICATE_END;
    MarkersAre();
    var ders := Ders(entries);
    n := i;
    if i == |entries| {
      LoadTail(tail, ders[..i], accept);
      assert ders[..i] == ders;
    } else {
      LoadEntry(entries[i], Render(entries, i + 1, tail), ders[..i], accept);
      assert ders[..i] + [entries[i].der] == ders[..i + 1];
      if accept(ders[..i], ders[i]) {
        n := BundleFrom(entries, i + 1, tail, accept);
      }
    }
  }

  /** For every bundle of non-empty certificates, with any text without a begin marker around them and white
      space anywhere in the base64, the loader hands over exactly those certificates in order, up to the first
      one refused, and succeeds when there is one and none is refused. */
  lemma {:induction false} BundleExtraction(entries: seq<Entry>, tail: string, accept: (seq<Der>, Der) -> bool)
    returns (n: nat)
    requires forall e :: e in entries ==> WellFormed(e)
    requires Find(tail, BEGIN, 0).None?
    ensures n <= |entries|
    ensures var ders := Ders(entries);
            && (forall k :: 0 <= k < n ==> accept(ders[..k], ders[k]))
            && (n < |ders| ==> !accept(ders[..n], ders[n]))
            && Load(Render(entries, 0, tail), [], accept) ==
               if n < |ders| then Outcome(false, ders[..n + 1]) else Outcome(ders != [], ders)
  {
    hide WellFormed;
    n := BundleFrom(entries, 0, tail, accept);
    assert Ders(entries)[..0] == [];
  }

  // ----- the code -----

  lemma {:induction false} BetweenAt(s: string, pos: nat, open: string, close: string)
    requires pos <= |s|
    ensures var r := Between(s[pos..], 0, open, close);
            Between(s, pos, open, close) == if r.None? then None else Some((pos + r.value.0, pos + r.value.1))
  {
    hide Find;
    var t := s[pos..];
    assert s[..pos] + t == s;
    FindBehind(s[..pos], t, open);
    var o := Find(t, open, 0);
    if o.Some? {
      var b := o.value + |open|;
      assert s[..pos + b] + t[b..] == s && t[..b] + t[b..] == t;
      FindBehind(s[..pos + b], t[b..], close);
      FindBehind(t[..b], t[b..], close);
    }
  }

  /** What the loader does from `pos` on, in the positions of the whole text. */
  lemma LoadAt(pem: string, pos: nat, before: seq<Der>, accept: (seq<Der>, Der) -> bool)
    requires pos <= |pem|
    ensures var body := Between(pem, pos, BEGIN, END);
            Load(pem[pos..], before, accept) ==
            if body.None? then Outcome(before != [], before)
            else
              var der := Base64.Decode(pem[body.value.0..body.value.1]);
              if der.None? then Outcome(false, before)
              else if !accept(before, der.value) then Outcome(false, before + [der.value])
              else Load(pem[body.value.1 + |END|..], before + [der.value], accept)
  {
    hide Base64.Decode;
    hide Between;
    BetweenAt(pem, pos, BEGIN, END);
    var body := Between(pem[pos..], 0, BEGIN, END);
    if body.Some? {
      assert pem[pos..][body.value.0..body.value.1] == pem[pos + body.value.0..pos + body.value.1];
      assert pem[pos..][body.value.1 + |END|..] == pem[pos + body.value.1 + |END|..];
    }
  }

  method LoadRootCertPemBundle(pem: string, accept: (seq<Der>, Der) -> bool) returns (ok: bool, offered: seq<Der>)
    ensures Outcome(ok, offered) == Load(pem, [], accept)
  {
    hide Base64.Decode;
    hide Load;
    offered := [];
    var pos, loaded := 0, false;
    assert pem[0..] == pem;
    while true
      invariant pos <= |pem| && loaded == (offered != [])
      invariant Load(pem[pos..], offered, accept) == Load(pem, [], accept)
      decreases |pem| - pos
    {
      LoadAt(pem, pos, offered, accept);
      var begin := Find(pem, BEGIN, pos);
      if begin.None? { break; }
      var start := begin.value + |BEGIN|;
      var end := Find(pem, END, start);
      if end.None? { break; }
      var der := Base64.Decode(pem[start..end.value]);
      if der.None? { return false, offered; }
      var accepted := accept(offered, der.value);
      offered := offered + [der.value];
      if !accepted { return false, offered; }
      loaded := true;
      pos := end.value + |END|;
    }
    ok := loaded;
  }
}
