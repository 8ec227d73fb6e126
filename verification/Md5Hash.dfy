/** md5_hash: padding, the loop over the blocks and the hexadecimal digest. */
module Md5Hash {
  import opened Bytes
  import opened Md5
  import Numbers

  // ----- padding (sections 3.1 and 3.2 of RFC 1321) -----

  function Zeros(n: nat): seq<Byte> {
    seq(n, _ => 0)
  }

  /** The number of zero bytes that brings a message and its 0x80 byte to 56 modulo 64. */
  function Fill(n: nat): nat {
    (119 - n % 64) % 64
  }

  /** The length field counts bits modulo 2^64. */
  function Pad(message: seq<Byte>): seq<Byte> {
    message + [0x80] + Zeros(Fill(|message|)) + LittleEndian(|message| * 8 % Pow256(8), 8)
  }

  lemma FillValue(n: nat)
    ensures Fill(n) == if n % 64 <= 55 then 55 - n % 64 else 119 - n % 64
  {
  }

  /** The padded length is the least multiple of 64 that leaves room for the marker and the length field. */
  lemma PadLength(message: seq<Byte>)
    ensures |Pad(message)| % 64 == 0 && |message| + 9 <= |Pad(message)| < |message| + 9 + 64
  {
    var n := |message|;
    hide LittleEndian;
    hide Pow256;
    FillValue(n);
    hide Fill;
    var r := n % 64 + 1 + Fill(n);
    assert |Pad(message)| == 64 * (n / 64) + (r + 8) && (r == 56 || r == 120);
  }

  /** Reading the padded message: its length field says how much of it is the message. */
  function Unpad(padded: seq<Byte>): seq<Byte>
    requires |padded| >= 8
  {
    var n := FromLittleEndian(padded[|padded| - 8..]) / 8;
    if n <= |padded| then padded[..n] else padded
  }

  lemma UnpadPad(message: seq<Byte>)
    requires |message| * 8 < Pow256(8)
    ensures |Pad(message)| >= 8 && Unpad(Pad(message)) == message
  {
    hide LittleEndian;
    hide FromLittleEndian;
    hide Pow256;
    hide Fill;
    hide Zeros;
    var bits := |message| * 8;
    LittleEndianInverse(bits, 8);
    Numbers.SmallModulo(bits, Pow256(8));
    var rest, length := [0x80] + Zeros(Fill(|message|)), LittleEndian(bits, 8);
    assert message + [0x80] + Zeros(Fill(|message|)) == message + rest;
    SliceOfSum(message + rest, length);
    PrefixOfSum(message, rest, length);
  }

  lemma PrefixOfSum(a: seq<Byte>, b: seq<Byte>, c: seq<Byte>)
    ensures (a + b + c)[..|a|] == a
  {
  }

  lemma SliceOfSum(a: seq<Byte>, b: seq<Byte>)
    ensures (a + b)[|a + b| - |b|..] == b
  {
  }

  /** Messages of fewer than 2^61 bytes are padded differently. */
  lemma PadInjective(m: seq<Byte>, n: seq<Byte>)
    requires |m| * 8 < Pow256(8) && |n| * 8 < Pow256(8) && Pad(m) == Pad(n)
    ensures m == n
  {
    UnpadPad(m);
    UnpadPad(n);
  }

  /** The fill loop: zero bytes until the length is 448 modulo 512 bits. */
  method FillZeros(start: seq<Byte>, ghost n: nat) returns (data: seq<Byte>)
    requires |start| == n + 1
    ensures data == start + Zeros(Fill(n))
  {
    hide Fill;
    data := start;
    ghost var k := 0;
    assert start + Zeros(0) == start;
    FillIs(n, k);
    while |data| * 8 % 512 != 448
      invariant k <= Fill(n) && data == start + Zeros(k)
      decreases Fill(n) - k
    {
      FillIs(n, k);
      assert Zeros(k) + [0] == Zeros(k + 1);
      data := data + [0];
      k := k + 1;
    }
    FillIs(n, k);
  }

  /** The loop that appends the length field, lowest byte first. */
  method AppendLength(front: seq<Byte>, bits: nat) returns (data: seq<Byte>)
    ensures data == front + LittleEndian(bits, 8)
  {
    data := front;
    var rest := bits;
    var i := 0;
    while i < 8
      invariant 0 <= i <= 8
      invariant front + LittleEndian(bits, 8) == data + LittleEndian(rest, 8 - i)
    {
      assert LittleEndian(rest, 8 - i) == [rest % 256] + LittleEndian(rest / 256, 8 - (i + 1));
      assert data + ([rest % 256] + LittleEndian(rest / 256, 8 - (i + 1))) ==
             (data + [rest % 256]) + LittleEndian(rest / 256, 8 - (i + 1));
      data := data + [rest % 256];
      rest := rest / 256;
      i := i + 1;
    }
    assert data + [] == data;
  }

  /** The padding part of md5_hash. */
  method PadMessage(input: seq<Byte>) returns (data: seq<Byte>)
    ensures data == Pad(input)
  {
    data := FillZeros(input + [0x80], |input|);
    data := AppendLength(data, |input| * 8 % Pow256(8));
  }

  lemma BitsModulo(x: nat)
    ensures x * 8 % 512 == 448 <==> x % 64 == 56
  {
    assert x * 8 == x / 64 * 512 + x % 64 * 8;
  }

  lemma RestModulo(q: nat, r: nat)
    requires r < 128
    ensures (64 * q + r) % 64 == if r < 64 then r else r - 64
  {
  }

  lemma FillIs(n: nat, k: nat)
    ensures 0 <= Fill(n)
    ensures k <= Fill(n) ==> ((n + 1 + k) * 8 % 512 == 448 <==> k == Fill(n))
  {
    FillValue(n);
    if k <= Fill(n) {
      var m := n % 64;
      hide Fill;
      BitsModulo(n + 1 + k);
      RestModulo(n / 64, m + 1 + k);
      assert n + 1 + k == 64 * (n / 64) + (m + 1 + k);
    }
  }

  // ----- words and blocks -----

  /** Four bytes as a word, the lowest first. */
  function WordAt(data: seq<Byte>, k: nat): Word
    requires k + 4 <= |data|
  {
    data[k] as bv32 | (data[k + 1] as bv32 << 8) | (data[k + 2] as bv32 << 16) | (data[k + 3] as bv32 << 24)
  }

  function BlockAt(data: seq<Byte>, i: nat): Block
    requires i + 64 <= |data|
  {
    seq(16, j requires 0 <= j < 16 => WordAt(data, i + 4 * j))
  }

  const INITIAL := Quad(0x67452301 as Word, 0xefcdab89 as Word, 0x98badcfe as Word, 0x10325476 as Word)

  /** Section 3.4: every block in turn goes through the four rounds and is added to the registers. */
  function RfcDigest(data: seq<Byte>, i: nat, r: Registers): Registers
    decreases |data| - i
  {
    if i + 64 > |data| then r
    else RfcDigest(data, i + 64, Add(r, RfcSteps(64, r, BlockAt(data, i))))
  }

  // ----- hexadecimal digest (section 3.5) -----

  const HEX_DIGITS := "0123456789abcdef"

  function HexDigit(d: Word): char {
    var k := (d & 0xf) as int;
    if k < 16 then HEX_DIGITS[k] else '0'
  }

  function HexByte(b: Word): string {
    [HexDigit(b >> 4), HexDigit(b)]
  }

  function HexWord(w: Word): string {
    HexByte(w & 0xff) + HexByte((w >> 8) & 0xff) + HexByte((w >> 16) & 0xff) + HexByte((w >> 24) & 0xff)
  }

  function Hex(r: Registers): string {
    HexWord(r.a) + HexWord(r.b) + HexWord(r.c) + HexWord(r.d)
  }

  /** MD5 of a message as RFC 1321 defines it, in hexadecimal. */
  function Rfc1321(message: seq<Byte>): string {
    Hex(RfcDigest(Pad(message), 0, INITIAL))
  }

  // ----- md5_hash -----

  /** The branches of the inner loop: round function and word index of a step. */
  method RoundFunction(round: nat, bb: Word, cc: Word, dd: Word) returns (f: Word, g: nat)
    requires round < 64
    ensures f == Mix(round, bb, cc, dd) && g == WordIndex(round)
  {
    hide F;
    hide G;
    hide H;
    hide I;
    if round < 16 {
      f, g := F(bb, cc, dd), round;
    } else if round < 32 {
      f, g := G(bb, cc, dd), (5 * round + 1) % 16;
    } else if round < 48 {
      f, g := H(bb, cc, dd), (3 * round + 5) % 16;
    } else {
      f, g := I(bb, cc, dd), (7 * round) % 16;
    }
  }

  /** The 64 steps on one block, updating the working registers. */
  method Rounds(chunk: array<Word>, r: Registers) returns (out: Registers)
    requires chunk.Length == 16
    ensures out == Steps(64, r, chunk[..])
  {
    hide Mix;
    hide LeftRotate;
    hide Plus;
    hide Sum;
    hide WordIndex;
    ghost var x: Block := chunk[..];
    var aa, bb, cc, dd := r.a, r.b, r.c, r.d;
    var round := 0;
    while round < 64
      invariant 0 <= round <= 64
      invariant Quad(aa, bb, cc, dd) == Steps(round, r, x)
    {
      var f, g := RoundFunction(round, bb, cc, dd);
      ShiftsAreRfc(round);
      f := Sum(f, aa, CONSTANTS[round], chunk[g]);
      aa, dd, cc, bb := dd, cc, bb, Plus(bb, LeftRotate(f, SHIFTS[round]));
      round := round + 1;
    }
    out := Quad(aa, bb, cc, dd);
  }

  /** md5_hash computes the digest of RFC 1321. */
  method Hash(input: seq<Byte>) returns (result: string)
    ensures result == Rfc1321(input)
  {
    hide WordAt;
    hide RfcSteps;
    hide Steps;
    hide Pad;
    hide HexWord;
    hide Add;
    var data := PadMessage(input);
    PadLength(input);
    var state: Registers := INITIAL;
    var i := 0;
    while i < |data|
      invariant 0 <= i <= |data| && i % 64 == 0 && |data| % 64 == 0
      invariant RfcDigest(data, 0, INITIAL) == RfcDigest(data, i, state)
    {
      var chunk := new Word[16];
      for j := 0 to 16
        invariant forall k :: 0 <= k < j ==> chunk[k] == WordAt(data, i + 4 * k)
      {
        chunk[j] := WordAt(data, i + 4 * j);
      }
      assert chunk[..] == BlockAt(data, i);
      var r := Rounds(chunk, state);
      LoopRefinesRfc(64, state, BlockAt(data, i));
      state := Add(state, r);
      i := i + 64;
    }
    result := Hex(state);
  }
}
