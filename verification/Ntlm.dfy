/** The NTLM messages of ntlm.cpp ([MS-NLMP] sections 2.2.1.1 and 2.2.1.3). The random client challenge and the
    password response, which the source computes with a placeholder hash, are parameters. */
module Ntlm {
  import opened Text
  import opened Bytes
  import Base64

  /** The bytes of "NTLMSSP" and a zero. */
  const SIGNATURE: seq<Byte> := [0x4E, 0x54, 0x4C, 0x4D, 0x53, 0x53, 0x50, 0]
  const VERSION: seq<Byte> := [0x06, 0x01, 0x24, 0x00, 0x0F, 0x00, 0x00, 0x00]
  const NO_SESSION_KEY: seq<Byte> := [0, 0, 0, 0, 0, 0, 0, 0]
  const FLAGS := 0x8213

  /** utf8_to_utf16le: every byte followed by a zero. */
  function Widen(s: seq<Byte>): (r: seq<Byte>)
    ensures |r| == 2 * |s|
  {
    if s == [] then [] else [s[0], 0] + Widen(s[1..])
  }

  /** Every second byte. */
  function Narrow(s: seq<Byte>): seq<Byte> {
    if |s| < 2 then [] else [s[0]] + Narrow(s[2..])
  }

  lemma {:induction false} WidenInverse(s: seq<Byte>)
    ensures Narrow(Widen(s)) == s
  {
    if s != [] {
      assert Widen(s)[2..] == Widen(s[1..]);
      WidenInverse(s[1..]);
    }
  }

  /** The conversion to uint16_t. */
  function Length16(field: seq<Byte>): nat {
    |field| % 65536
  }

  /** Length, maximum length and offset of a field. */
  function Descriptor(length: nat, offset: nat): (r: seq<Byte>)
    ensures |r| == 8
  {
    LittleEndian(length, 2) + LittleEndian(length, 2) + LittleEndian(offset, 4)
  }

  /** The descriptors of consecutive fields, the first of which starts at `offset`. */
  function Descriptors(fields: seq<seq<Byte>>, offset: nat): (r: seq<Byte>)
    ensures |r| == 8 * |fields|
  {
    if fields == [] then []
    else Descriptor(Length16(fields[0]), offset) + Descriptors(fields[1..], offset + Length16(fields[0]))
  }

  function Payload(fields: seq<seq<Byte>>): seq<Byte> {
    if fields == [] then [] else fields[0] + Payload(fields[1..])
  }

  /** A message: what precedes the descriptors, the descriptors, what follows them, and the fields. */
  function Message(head: seq<Byte>, fields: seq<seq<Byte>>, middle: seq<Byte>): seq<Byte> {
    head + Descriptors(fields, |head| + 8 * |fields| + |middle|) + middle + Payload(fields)
  }

  function Type1Head(): (r: seq<Byte>)
    ensures |r| == 16
  {
    SIGNATURE + LittleEndian(1, 4) + LittleEndian(FLAGS, 4)
  }

  function Type1(domain: seq<Byte>, workstation: seq<Byte>): seq<Byte> {
    Message(Type1Head(), [Widen(domain), Widen(workstation)], VERSION)
  }

  function Type3Head(): (r: seq<Byte>)
    ensures |r| == 12
  {
    SIGNATURE + LittleEndian(3, 4)
  }

  function Type3Fields(response: seq<Byte>, challenge: seq<Byte>, domain: seq<Byte>, user: seq<Byte>,
                       workstation: seq<Byte>): (r: seq<seq<Byte>>)
    ensures |r| == 5
  {
    [response + challenge, response, Widen(domain), Widen(user), Widen(workstation)]
  }

  function Type3(fields: seq<seq<Byte>>): seq<Byte> {
    Message(Type3Head(), fields, NO_SESSION_KEY + LittleEndian(FLAGS, 4))
  }

  /** The text sent; the size passes through an unsigned int. */
  function Sent(message: seq<Byte>): string {
    Base64.Encode(message[..|message| % 0x1_0000_0000])
  }

  // ----- a reader -----

  /** The length and the offset in the descriptor at `at`. */
  function ReadDescriptor(message: seq<Byte>, at: nat): (r: (nat, nat))
    requires at + 8 <= |message|
    ensures r.0 < 65536
  {
    FromTwo(message[at..at + 2]);
    (FromLittleEndian(message[at..at + 2]), FromLittleEndian(message[at + 4..at + 8]))
  }

  lemma FromTwo(b: seq<Byte>)
    requires |b| == 2
    ensures FromLittleEndian(b) < 65536
  {
    assert FromLittleEndian(b[1..][1..]) == 0;
  }

  /** The field whose descriptor is at `at`, as a peer following the standard reads it. */
  function ReadField(message: seq<Byte>, at: nat): (r: Option<seq<Byte>>)
    ensures r.Some? ==> |r.value| < 65536
  {
    if at + 8 > |message| then None
    else
      var (length, offset) := ReadDescriptor(message, at);
      if offset + length > |message| then None else Some(message[offset..offset + length])
  }

  /** The reader recovers all of `fields`, whose descriptors start at `at`. */
  ghost predicate Reads(message: seq<Byte>, at: nat, fields: seq<seq<Byte>>) {
    forall k :: 0 <= k < |fields| ==> ReadField(message, at + 8 * k) == Some(fields[k])
  }

  /** The descriptors starting at `at` describe fields that follow one another without gap or overlap from
      `start` to the end of the message. */
  ghost predicate Contiguous(message: seq<Byte>, at: nat, count: nat, start: nat)
    decreases count
  {
    if count == 0 then start == |message|
    else
      && at + 8 <= |message|
      && ReadDescriptor(message, at).1 == start
      && Contiguous(message, at + 8, count - 1, start + ReadDescriptor(message, at).0)
  }

  predicate Fit(fields: seq<seq<Byte>>) {
    forall f :: f in fields ==> |f| < 65536
  }

  // ----- the layout -----

  lemma ReadOwnDescriptor(front: seq<Byte>, length: nat, offset: nat, back: seq<Byte>)
    requires length < 65536 && offset < 0x1_0000_0000
    ensures ReadDescriptor(front + (Descriptor(length, offset) + back), |front|) == (length, offset)
  {
    var m := front + (Descriptor(length, offset) + back);
    assert m[|front|..|front| + 2] == LittleEndian(length, 2);
    assert m[|front| + 4..|front| + 8] == LittleEndian(offset, 4);
    assert Pow256(2) == 65536 && Pow256(4) == 0x1_0000_0000 by {
      assert Pow256(1) == 256 && Pow256(3) == 256 * Pow256(2);
    }
    LittleEndianInverse(length, 2);
    LittleEndianInverse(offset, 4);
  }

  /** A message from the descriptors of `fields` on, when the first of these fields starts at `offset` and
      `middle` is what stands in between. */
  function Rest(fields: seq<seq<Byte>>, middle: seq<Byte>, offset: nat): seq<Byte> {
    Descriptors(fields, offset) + (middle + Payload(fields))
  }

  /** The first descriptor goes to the front, the first field to the part in between. */
  lemma Regroup(fields: seq<seq<Byte>>, middle: seq<Byte>, offset: nat)
    requires fields != [] && |fields[0]| < 65536
    ensures Rest(fields, middle, offset) ==
            Descriptor(|fields[0]|, offset) + Rest(fields[1..], middle + fields[0], offset + |fields[0]|)
  {
    hide Descriptor;
    var f, rest := fields[0], fields[1..];
    var ds, p := Descriptors(rest, offset + |f|), Payload(rest);
    RegroupPieces(Descriptor(|f|, offset), ds, middle, f, p);
  }

  lemma RegroupPieces(d: seq<Byte>, ds: seq<Byte>, middle: seq<Byte>, f: seq<Byte>, p: seq<Byte>)
    ensures (d + ds) + (middle + (f + p)) == d + (ds + ((middle + f) + p))
  {
  }

  lemma FieldPosition(front: seq<Byte>, ds: seq<Byte>, middle: seq<Byte>, f: seq<Byte>, p: seq<Byte>)
    ensures var m := front + (ds + (middle + (f + p)));
            var offset := |front| + |ds| + |middle|;
            m[offset..offset + |f|] == f
  {
  }

  lemma FirstField(front: seq<Byte>, fields: seq<seq<Byte>>, middle: seq<Byte>, offset: nat)
    requires fields != [] && |fields[0]| < 65536
    requires offset == |front| + 8 * |fields| + |middle| < 0x1_0000_0000
    ensures var m := front + Rest(fields, middle, offset);
            && |m| >= |front| + 8
            && ReadDescriptor(m, |front|) == (|fields[0]|, offset)
            && ReadField(m, |front|) == Some(fields[0])
  {
    hide ReadDescriptor;
    hide Descriptor;
    var f := fields[0];
    FieldPosition(front, Descriptors(fields, offset), middle, f, Payload(fields[1..]));
    Regroup(fields, middle, offset);
    ReadOwnDescriptor(front, |f|, offset, Rest(fields[1..], middle + f, offset + |f|));
  }

  /** Behind any front, the reader finds all fields, one behind the other. */
  lemma {:induction false} LayoutFrom(front: seq<Byte>, fields: seq<seq<Byte>>, middle: seq<Byte>, offset: nat)
    requires Fit(fields)
    requires offset == |front| + 8 * |fields| + |middle|
    requires offset + 65536 * |fields| < 0x1_0000_0000
    ensures var m := front + Rest(fields, middle, offset);
            Reads(m, |front|, fields) && Contiguous(m, |front|, |fields|, offset)
    decreases |fields|
  {
    hide ReadDescriptor;
    hide ReadField;
    hide Descriptor;
    hide Reads;
    if fields == [] {
      assert Payload(fields) == [];
      NothingToRead(front + Rest(fields, middle, offset), |front|);
    } else {
      hide Descriptors;
      hide Payload;
      var f, rest := fields[0], fields[1..];
      FitRest(fields);
      FirstField(front, fields, middle, offset);
      Regroup(fields, middle, offset);
      hide Rest;
      var d, more := Descriptor(|f|, offset), Rest(rest, middle + f, offset + |f|);
      assert front + (d + more) == (front + d) + more;
      LayoutFrom(front + d, rest, middle + f, offset + |f|);
      ReadsOneMore(front + (d + more), |front|, fields);
    }
  }

  lemma NothingToRead(m: seq<Byte>, at: nat)
    ensures Reads(m, at, [])
  {
  }

  lemma FitRest(fields: seq<seq<Byte>>)
    requires Fit(fields) && fields != []
    ensures |fields[0]| < 65536 && Fit(fields[1..])
  {
    assert fields[0] in fields && forall g :: g in fields[1..] ==> g in fields;
  }

  lemma ReadsOneMore(m: seq<Byte>, at: nat, fields: seq<seq<Byte>>)
    requires fields != [] && ReadField(m, at) == Some(fields[0]) && Reads(m, at + 8, fields[1..])
    ensures Reads(m, at, fields)
  {
    hide ReadField;
    forall k | 0 <= k < |fields|
      ensures ReadField(m, at + 8 * k) == Some(fields[k])
    {
      if k > 0 {
        assert fields[1..][k - 1] == fields[k] && at + 8 + 8 * (k - 1) == at + 8 * k;
      }
    }
  }

  lemma MessageLayout(head: seq<Byte>, fields: seq<seq<Byte>>, middle: seq<Byte>)
    requires Fit(fields) && |head| + |middle| + 65544 * |fields| < 0x1_0000_0000
    ensures var m := Message(head, fields, middle);
            Reads(m, |head|, fields) && Contiguous(m, |head|, |fields|, |head| + 8 * |fields| + |middle|)
    ensures |Message(head, fields, middle)| < 0x1_0000_0000
  {
    hide Reads;
    hide Contiguous;
    hide Fit;
    var offset := |head| + 8 * |fields| + |middle|;
    LayoutFrom(head, fields, middle, offset);
    RegroupMessage(head, Descriptors(fields, offset), middle, Payload(fields));
    PayloadBound(fields);
  }

  lemma RegroupMessage(a: seq<Byte>, b: seq<Byte>, c: seq<Byte>, d: seq<Byte>)
    ensures a + b + c + d == a + (b + (c + d))
  {
  }

  lemma {:induction false} PayloadBound(fields: seq<seq<Byte>>)
    requires Fit(fields)
    ensures |Payload(fields)| <= 65536 * |fields|
  {
    if fields != [] {
      FitRest(fields);
      PayloadBound(fields[1..]);
    }
  }

  /** The receiver of a base64 text recovers `fields`, which fill the message from `start` on. */
  ghost predicate Recovers(text: string, at: nat, fields: seq<seq<Byte>>, start: nat) {
    var m := Base64.Decode(text);
    m.Some? && Reads(m.value, at, fields) && Contiguous(m.value, at, |fields|, start)
  }

  lemma SentIsReadable(head: seq<Byte>, fields: seq<seq<Byte>>, middle: seq<Byte>)
    requires head != [] && |head| + |middle| + 65544 * |fields| < 0x1_0000_0000
    ensures Recovers(Sent(Message(head, fields, middle)), |head|, fields, |head| + 8 * |fields| + |middle|)
            <==> Fit(fields)
  {
    hide Base64.Decode;
    hide Base64.Encode;
    hide Contiguous;
    hide ReadField;
    hide Descriptors;
    hide Payload;
    var m := Message(head, fields, middle);
    if Fit(fields) {
      hide Reads;
      MessageLayout(head, fields, middle);
      hide Message;
      assert m != [];
      assert m[..|m| % 0x1_0000_0000] == m;
      Base64.RoundTrip(Base64.Encode(m), m);
    } else {
      var f :| f in fields && |f| >= 65536;
      var k :| 0 <= k < |fields| && fields[k] == f;
      hide Message;
      var received := Base64.Decode(Sent(m));
      assert received.Some? ==> ReadField(received.value, |head| + 8 * k) != Some(fields[k]);
    }
  }

  /** A peer that base64-decodes the Type 1 message reads both names, which are contiguous, disjoint and fill the
      message from byte 40 on, exactly when both are short enough for their 16-bit lengths. */
  lemma {:induction false} Type1Readable(domain: seq<Byte>, workstation: seq<Byte>)
    ensures Recovers(Sent(Type1(domain, workstation)), 16, [Widen(domain), Widen(workstation)], 40) <==>
            |domain| < 32768 && |workstation| < 32768
  {
    hide Recovers;
    hide Sent;
    hide Message;
    hide Fit;
    hide Widen;
    var fields := [Widen(domain), Widen(workstation)];
    TwoFit(fields);
    hide Type1Head;
    SentIsReadable(Type1Head(), fields, VERSION);
  }

  // ----- the bytes at the offsets of the standard -----

  /** What stands in a message, by position. */
  lemma PartsOfMessage(head: seq<Byte>, fields: seq<seq<Byte>>, middle: seq<Byte>)
    ensures var (m, n) := (Message(head, fields, middle), |head| + 8 * |fields|);
            |m| >= n + |middle| && m[..|head|] == head && m[n..n + |middle|] == middle
  {
    var ds := Descriptors(fields, |head| + 8 * |fields| + |middle|);
    RegroupMessage(head, ds, middle, Payload(fields));
    var front, back := head + ds, Payload(fields);
    assert head + ds + middle + back == front + (middle + back);
  }

  lemma Slices(m: seq<Byte>, i: nat, j: nat, k: nat)
    requires i <= j <= k <= |m|
    ensures m[..k][i..j] == m[i..j]
  {
  }

  /** The descriptor of the domain, whose length is cut to 16 bits. */
  lemma FirstDescriptor(domain: seq<Byte>, workstation: seq<Byte>)
    ensures var (m, n) := (Type1(domain, workstation), 2 * |domain| % 65536);
            |m| >= 40 && m[16..24] == [n % 256, n / 256, n % 256, n / 256, 40, 0, 0, 0]
  {
    var n := Length16(Widen(domain));
    var fields := [Widen(domain), Widen(workstation)];
    DescriptorIs(n, 40);
    FourBytes(40);
    assert fields[1..] == [fields[1]];
    hide LittleEndian;
    hide Type1Head;
    hide Descriptor;
    hide Widen;
    hide VERSION;
    DescriptorBehind(Type1Head(), Descriptor(n, 40), Descriptors([fields[1]], 40 + n), VERSION, Payload(fields));
  }

  lemma DescriptorIs(n: nat, offset: nat)
    requires n < 65536
    ensures Descriptor(n, offset) == [n % 256, n / 256, n % 256, n / 256] + LittleEndian(offset, 4)
  {
    TwoBytes(n);
    hide LittleEndian;
  }

  lemma DescriptorBehind(head: seq<Byte>, d: seq<Byte>, ds: seq<Byte>, middle: seq<Byte>, payload: seq<Byte>)
    ensures (head + (d + ds) + middle + payload)[|head|..|head| + |d|] == d
  {
  }

  /** Section 2.2.1.1: signature, type 1, flags, the two names behind the descriptors at 16 and 24, version. */
  lemma Type1Layout(domain: seq<Byte>, workstation: seq<Byte>)
    requires |domain| < 32768 && |workstation| < 32768
    ensures var m := Type1(domain, workstation);
            && |m| >= 40 && m[..8] == [0x4E, 0x54, 0x4C, 0x4D, 0x53, 0x53, 0x50, 0]
            && m[8..12] == [1, 0, 0, 0] && m[12..16] == [0x13, 0x82, 0, 0]
            && ReadField(m, 16) == Some(Widen(domain)) && ReadField(m, 24) == Some(Widen(workstation))
            && m[32..40] == [0x06, 0x01, 0x24, 0, 0x0F, 0, 0, 0]
  {
    hide Type1;
    hide ReadField;
    var fields := [Widen(domain), Widen(workstation)];
    TwoFit(fields);
    hide Fit;
    hide Widen;
    Type1Frame(domain, workstation);
    TwoReads(Type1(domain, workstation), fields);
  }

  lemma Type1HeadIs()
    ensures Type1Head()[..8] == [0x4E, 0x54, 0x4C, 0x4D, 0x53, 0x53, 0x50, 0]
    ensures Type1Head()[8..12] == [1, 0, 0, 0] && Type1Head()[12..16] == [0x13, 0x82, 0, 0]
  {
    FourBytes(1);
    FourBytes(FLAGS);
    hide LittleEndian;
  }

  lemma Type1Frame(domain: seq<Byte>, workstation: seq<Byte>)
    requires Fit([Widen(domain), Widen(workstation)])
    ensures var m := Type1(domain, workstation);
            && |m| >= 40 && m[..8] == [0x4E, 0x54, 0x4C, 0x4D, 0x53, 0x53, 0x50, 0]
            && m[8..12] == [1, 0, 0, 0] && m[12..16] == [0x13, 0x82, 0, 0]
            && m[32..40] == [0x06, 0x01, 0x24, 0, 0x0F, 0, 0, 0]
            && Reads(m, 16, [Widen(domain), Widen(workstation)])
  {
    hide Type1Head;
    hide Message;
    hide Reads;
    hide Fit;
    hide Widen;
    Type1HeadIs();
    var fields, head := [Widen(domain), Widen(workstation)], Type1Head();
    var m := Type1(domain, workstation);
    MessageLayout(head, fields, VERSION);
    PartsOfMessage(head, fields, VERSION);
    Slices(m, 0, 8, 16);
    Slices(m, 8, 12, 16);
    Slices(m, 12, 16, 16);
  }

  lemma TwoReads(m: seq<Byte>, fields: seq<seq<Byte>>)
    requires |fields| == 2 && Reads(m, 16, fields)
    ensures ReadField(m, 16) == Some(fields[0]) && ReadField(m, 24) == Some(fields[1])
  {
    hide ReadField;
    assert ReadField(m, 16 + 8 * 0) == Some(fields[0]) && ReadField(m, 16 + 8 * 1) == Some(fields[1]);
  }

  /** Section 2.2.1.3: signature, type 3, the five fields behind the descriptors at 12, 20, 28, 36 and 44, an empty
      session key, flags. */
  lemma Type3Layout(response: seq<Byte>, challenge: seq<Byte>, domain: seq<Byte>, user: seq<Byte>,
                    workstation: seq<Byte>)
    requires |response| == 16 && |challenge| == 8
    requires |domain| < 32768 && |user| < 32768 && |workstation| < 32768
    ensures var m := Type3(Type3Fields(response, challenge, domain, user, workstation));
            && |m| >= 64 && m[..8] == [0x4E, 0x54, 0x4C, 0x4D, 0x53, 0x53, 0x50, 0] && m[8..12] == [3, 0, 0, 0]
            && ReadField(m, 12) == Some(response + challenge) && ReadField(m, 20) == Some(response)
            && ReadField(m, 28) == Some(Widen(domain)) && ReadField(m, 36) == Some(Widen(user))
            && ReadField(m, 44) == Some(Widen(workstation))
            && m[52..60] == [0, 0, 0, 0, 0, 0, 0, 0] && m[60..64] == [0x13, 0x82, 0, 0]
  {
    hide Type3;
    hide ReadField;
    hide Message;
    var fields := Type3Fields(response, challenge, domain, user, workstation);
    FiveFit(fields);
    hide Fit;
    Type3Frame(fields);
    FiveReads(Type3(fields), fields);
  }

  lemma Type3Frame(fields: seq<seq<Byte>>)
    requires |fields| == 5 && Fit(fields)
    ensures var m := Type3(fields);
            && |m| >= 64 && m[..8] == [0x4E, 0x54, 0x4C, 0x4D, 0x53, 0x53, 0x50, 0] && m[8..12] == [3, 0, 0, 0]
            && m[52..60] == [0, 0, 0, 0, 0, 0, 0, 0] && m[60..64] == [0x13, 0x82, 0, 0] && Reads(m, 12, fields)
  {
    FourBytes(3);
    FourBytes(FLAGS);
    var head, middle, m := Type3Head(), NO_SESSION_KEY + LittleEndian(FLAGS, 4), Type3(fields);
    assert head == SIGNATURE + [3, 0, 0, 0] && middle == NO_SESSION_KEY + [0x13, 0x82, 0, 0];
    hide Type3Head;
    hide Message;
    hide Reads;
    hide Fit;
    MessageLayout(head, fields, middle);
    PartsOfMessage(head, fields, middle);
    Slices(m, 0, 8, 12);
    Slices(m, 8, 12, 12);
    assert m[52..64][..8] == m[52..60] && m[52..64][8..] == m[60..64];
  }

  lemma FiveReads(m: seq<Byte>, fields: seq<seq<Byte>>)
    requires |fields| == 5 && Reads(m, 12, fields)
    ensures ReadField(m, 12) == Some(fields[0]) && ReadField(m, 20) == Some(fields[1])
    ensures ReadField(m, 28) == Some(fields[2]) && ReadField(m, 36) == Some(fields[3])
    ensures ReadField(m, 44) == Some(fields[4])
  {
    hide ReadField;
    assert ReadField(m, 12 + 8 * 0) == Some(fields[0]) && ReadField(m, 12 + 8 * 1) == Some(fields[1]);
    assert ReadField(m, 12 + 8 * 2) == Some(fields[2]) && ReadField(m, 12 + 8 * 3) == Some(fields[3]);
    assert ReadField(m, 12 + 8 * 4) == Some(fields[4]);
  }

  /** A descriptor repeats its length as the maximum length; a wide string has the bytes at its even places. */
  lemma DescriptorRepeats(length: nat, offset: nat)
    ensures Descriptor(length, offset)[2..4] == Descriptor(length, offset)[..2]
  {
  }

  lemma {:induction false} WidenAt(s: seq<Byte>, k: nat)
    requires k < |s|
    ensures Widen(s)[2 * k] == s[k] && Widen(s)[2 * k + 1] == 0
  {
    if k > 0 {
      WidenAt(s[1..], k - 1);
      assert Widen(s)[2..] == Widen(s[1..]);
      assert Widen(s)[2..][2 * (k - 1)] == Widen(s)[2 * k] && Widen(s)[2..][2 * (k - 1) + 1] == Widen(s)[2 * k + 1];
    }
  }

  lemma TwoFit(fields: seq<seq<Byte>>)
    requires |fields| == 2
    ensures Fit(fields) <==> |fields[0]| < 65536 && |fields[1]| < 65536
  {
    assert forall f :: f in fields <==> f == fields[0] || f == fields[1];
  }

  lemma SentType3(fields: seq<seq<Byte>>)
    requires |fields| == 5
    ensures Recovers(Sent(Type3(fields)), 12, fields, 64) <==> Fit(fields)
  {
    hide Recovers;
    hide Sent;
    hide Message;
    hide Fit;
    hide Type3Head;
    SentIsReadable(Type3Head(), fields, NO_SESSION_KEY + LittleEndian(FLAGS, 4));
  }

  /** The same for the five fields of the Type 3 message, from byte 64 on. */
  lemma Type3Readable(response: seq<Byte>, challenge: seq<Byte>, domain: seq<Byte>, user: seq<Byte>,
                      workstation: seq<Byte>)
    requires |response| == 16 && |challenge| == 8
    ensures var message := Type3(Type3Fields(response, challenge, domain, user, workstation));
            Recovers(Sent(message), 12,
                     [response + challenge, response, Widen(domain), Widen(user), Widen(workstation)], 64) <==>
            |domain| < 32768 && |user| < 32768 && |workstation| < 32768
  {
    hide Recovers;
    hide Sent;
    hide Type3;
    hide Fit;
    hide Widen;
    var fields := Type3Fields(response, challenge, domain, user, workstation);
    FiveFit(fields);
    SentType3(fields);
  }

  lemma FiveFit(fields: seq<seq<Byte>>)
    requires |fields| == 5
    ensures Fit(fields) <==>
            && |fields[0]| < 65536 && |fields[1]| < 65536 && |fields[2]| < 65536
            && |fields[3]| < 65536 && |fields[4]| < 65536
  {
    assert forall f ::
             f in fields <==> f == fields[0] || f == fields[1] || f == fields[2] || f == fields[3] || f == fields[4];
  }

  // ----- the code -----

  lemma {:induction false} WidenSnoc(s: seq<Byte>, b: Byte)
    ensures Widen(s + [b]) == Widen(s) + [b] + [0]
  {
    if s == [] {
      assert s + [b] == [b] && [b][1..] == [];
      assert Widen([b]) == [b, 0] + [];
    } else {
      assert (s + [b])[0] == s[0] && (s + [b])[1..] == s[1..] + [b];
      WidenSnoc(s[1..], b);
    }
  }

  method Utf8ToUtf16le(s: seq<Byte>) returns (result: seq<Byte>)
    ensures result == Widen(s)
  {
    result := [];
    for i := 0 to |s|
      invariant result == Widen(s[..i])
    {
      assert s[..i + 1] == s[..i] + [s[i]];
      WidenSnoc(s[..i], s[i]);
      result := result + [s[i]];
      result := result + [0];
    }
    assert s[..|s|] == s;
  }

  lemma TwoBytes(n: nat)
    ensures LittleEndian(n, 2) == [n % 256, n / 256 % 256]
  {
    assert LittleEndian(n / 256, 1) == [n / 256 % 256] + LittleEndian(n / 256 / 256, 0);
  }

  lemma FourBytes(n: nat)
    ensures LittleEndian(n, 4) == [n % 256, n / 256 % 256, n / 65536 % 256, n / 16777216 % 256]
  {
    TwoBytes(n / 65536);
    assert n / 65536 / 256 == n / 16777216 && n / 256 / 256 == n / 65536;
    assert LittleEndian(n, 4) == [n % 256] + LittleEndian(n / 256, 3);
    assert LittleEndian(n / 256, 3) == [n / 256 % 256] + LittleEndian(n / 256 / 256, 2);
  }

  /** The eight push_back calls of a length, its copy and an offset. */
  method AppendDescriptor(message: seq<Byte>, length: nat, offset: nat) returns (r: seq<Byte>)
    ensures r == message + Descriptor(length, offset)
  {
    TwoBytes(length);
    r := message + [length % 256];
    r := r + [length / 256 % 256];
    r := r + [length % 256];
    r := r + [length / 256 % 256];
    assert r == message + (LittleEndian(length, 2) + LittleEndian(length, 2));
    r := AppendFour(r, offset);
  }

  /** The four push_back calls of a 32-bit number. */
  method AppendFour(message: seq<Byte>, n: nat) returns (r: seq<Byte>)
    ensures r == message + LittleEndian(n, 4)
  {
    FourBytes(n);
    r := message + [n % 256];
    r := r + [n / 256 % 256];
    r := r + [n / 65536 % 256];
    r := r + [n / 16777216 % 256];
  }

  /** Where the field behind `fields` starts. */
  function EndOf(fields: seq<seq<Byte>>, offset: nat): nat {
    if fields == [] then offset else EndOf(fields[1..], offset + Length16(fields[0]))
  }

  lemma {:induction false} OneMoreDescriptor(fields: seq<seq<Byte>>, f: seq<Byte>, offset: nat)
    ensures Descriptors(fields + [f], offset)
            == Descriptors(fields, offset) + Descriptor(Length16(f), EndOf(fields, offset))
    ensures EndOf(fields + [f], offset) == EndOf(fields, offset) + Length16(f)
  {
    hide Descriptor;
    hide Length16;
    if fields == [] {
      assert [] + [f] == [f] && [f][1..] == [];
      assert Descriptors([f], offset) == Descriptor(Length16(f), offset) + [];
    } else {
      assert (fields + [f])[0] == fields[0] && (fields + [f])[1..] == fields[1..] + [f];
      OneMoreDescriptor(fields[1..], f, offset + Length16(fields[0]));
    }
  }

  lemma {:induction false} OneMoreField(fields: seq<seq<Byte>>, f: seq<Byte>)
    ensures Payload(fields + [f]) == Payload(fields) + f
  {
    if fields == [] {
      assert [] + [f] == [f] && [f][1..] == [];
      assert Payload([f]) == f + [];
    } else {
      assert (fields + [f])[0] == fields[0] && (fields + [f])[1..] == fields[1..] + [f];
      OneMoreField(fields[1..], f);
    }
  }

  /** Appends the descriptor of the field `f` behind those of `fields`; `length` is its 16-bit length. */
  method DescribeField(message: seq<Byte>, f: seq<Byte>, offset: nat, ghost fields: seq<seq<Byte>>,
                       ghost head: seq<Byte>, ghost start: nat)
    returns (r: seq<Byte>, length: nat)
    requires message == head + Descriptors(fields, start) && offset == EndOf(fields, start)
    ensures length == Length16(f)
    ensures r == head + Descriptors(fields + [f], start) && offset + length == EndOf(fields + [f], start)
  {
    hide Descriptors;
    length := |f| % 65536;
    r := AppendDescriptor(message, length, offset);
    OneMoreDescriptor(fields, f, start);
  }

  /** Appends the bytes of the field `f` behind those of `fields`. */
  method AppendField(message: seq<Byte>, f: seq<Byte>, ghost fields: seq<seq<Byte>>, ghost front: seq<Byte>)
    returns (r: seq<Byte>)
    requires message == front + Payload(fields)
    ensures r == front + Payload(fields + [f])
  {
    hide Payload;
    OneMoreField(fields, f);
    r := message + f;
  }

  /** create_ntlm_type1 */
  method CreateNtlmType1(domain: seq<Byte>, workstation: seq<Byte>) returns (text: string)
    ensures text == Sent(Type1(domain, workstation))
  {
    hide Base64.Encode;
    hide LittleEndian;
    hide Descriptor;
    ghost var fields, head := [], Type1Head();
    var message := SIGNATURE;
    message := AppendFour(message, 1);
    message := AppendFour(message, FLAGS);
    var offset := 32 + 8;
    assert message == head + Descriptors(fields, offset) && EndOf(fields, offset) == offset;
    hide Descriptors;
    hide EndOf;
    hide Type1Head;
    var domainBytes := Utf8ToUtf16le(domain);
    var domainLen, workstationLen;
    message, domainLen := DescribeField(message, domainBytes, offset, fields, head, offset);
    fields := fields + [domainBytes];
    var workstationBytes := Utf8ToUtf16le(workstation);
    message, workstationLen := DescribeField(message, workstationBytes, offset + domainLen, fields, head, offset);
    fields := fields + [workstationBytes];
    message := message + VERSION;
    ghost var front, now := message, [];
    assert Payload(now) == [];
    message := AppendField(message, domainBytes, now, front);
    now := now + [domainBytes];
    message := AppendField(message, workstationBytes, now, front);
    now := now + [workstationBytes];
    assert now == fields == [Widen(domain), Widen(workstation)];
    assert message == Type1(domain, workstation);
    hide Type1;
    text := Base64.EncodeBytes(message[..|message| % 0x1_0000_0000]);
  }

  /** The five insert calls at the end of create_ntlm_type3. */
  method AppendFive(message: seq<Byte>, lm: seq<Byte>, response: seq<Byte>, domain: seq<Byte>, user: seq<Byte>,
                    workstation: seq<Byte>)
    returns (r: seq<Byte>)
    ensures r == message + Payload([lm, response, domain, user, workstation])
  {
    ghost var now: seq<seq<Byte>> := [];
    assert message + Payload(now) == message;
    hide Payload;
    r := AppendField(message, lm, now, message);
    now := now + [lm];
    r := AppendField(r, response, now, message);
    now := now + [response];
    r := AppendField(r, domain, now, message);
    now := now + [domain];
    r := AppendField(r, user, now, message);
    now := now + [user];
    r := AppendField(r, workstation, now, message);
    assert now + [workstation] == [lm, response, domain, user, workstation];
  }

  /** create_ntlm_type3, with the 16-byte response to the password and the 8-byte client challenge given. */
  method CreateNtlmType3(response: seq<Byte>, challenge: seq<Byte>, domain: seq<Byte>, user: seq<Byte>,
                         workstation: seq<Byte>)
    returns (text: string)
    requires |response| == 16 && |challenge| == 8
    ensures text == Sent(Type3(Type3Fields(response, challenge, domain, user, workstation)))
  {
    hide Base64.Encode;
    hide LittleEndian;
    hide Descriptor;
    ghost var fields, head := [], Type3Head();
    var message := SIGNATURE;
    message := AppendFour(message, 3);
    var offset := 64;
    assert message == head + Descriptors(fields, offset) && EndOf(fields, offset) == offset;
    hide Descriptors;
    hide EndOf;
    hide Type3Head;
    var lmLen, ntlmLen, domainLen, userLen, workstationLen;
    var lm := response + challenge;
    message, lmLen := DescribeField(message, lm, offset, fields, head, offset);
    fields := fields + [lm];
    message, ntlmLen := DescribeField(message, response, offset + lmLen, fields, head, offset);
    fields := fields + [response];
    var domainBytes := Utf8ToUtf16le(domain);
    message, domainLen := DescribeField(message, domainBytes, offset + lmLen + ntlmLen, fields, head, offset);
    fields := fields + [domainBytes];
    var userBytes := Utf8ToUtf16le(user);
    message, userLen := DescribeField(message, userBytes, offset + lmLen + ntlmLen + domainLen, fields, head, offset);
    fields := fields + [userBytes];
    var workstationBytes := Utf8ToUtf16le(workstation);
    message, workstationLen :=
      DescribeField(message, workstationBytes, offset + lmLen + ntlmLen + domainLen + userLen, fields, head, offset);
    fields := fields + [workstationBytes];
    message := message + NO_SESSION_KEY;
    message := AppendFour(message, FLAGS);
    ghost var front := message;
    message := AppendFive(message, lm, response, domainBytes, userBytes, workstationBytes);
    assert fields == Type3Fields(response, challenge, domain, user, workstation);
    assert front == head + Descriptors(fields, 64) + (NO_SESSION_KEY + LittleEndian(FLAGS, 4));
    assert message == Type3(fields);
    hide Type3;
    text := Base64.EncodeBytes(message[..|message| % 0x1_0000_0000]);
  }
}
