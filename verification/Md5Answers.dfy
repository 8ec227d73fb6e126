/** Known answers of section A.5 of RFC 1321, computed with the four-line groups of its section 3.4 over literal
    words, and the four auxiliary functions bit by bit. */
module Md5Answers {
  import opened Bytes
  import opened Md5
  import opened Md5Hash
  import Numbers

  // ----- the auxiliary functions, bit by bit -----

  /** Where x has a one, F has the bit of y; elsewhere that of z. */
  lemma FSelects(x: Word, y: Word, z: Word)
    ensures F(x, y, z) & x == y & x && F(x, y, z) & !x == z & !x
  {
  }

  /** Where z has a one, G has the bit of x; elsewhere that of y. */
  lemma GSelects(x: Word, y: Word, z: Word)
    ensures G(x, y, z) & z == x & z && G(x, y, z) & !z == y & !z
  {
  }

  /** H has a one where an odd number of its arguments do. */
  lemma HIsParity(x: Word, y: Word, z: Word)
    ensures H(x, y, z) == (x & !y & !z) | (!x & y & !z) | (!x & !y & z) | (x & y & z)
  {
  }

  /** I has the bit of y where z has a one and x has none, and inverts it elsewhere. */
  lemma IInverts(x: Word, y: Word, z: Word)
    ensures I(x, y, z) & (z & !x) == y & (z & !x) && I(x, y, z) & !(z & !x) == !y & !(z & !x)
  {
  }

  // ----- four operations at a time -----

  function FF(a: Word, b: Word, c: Word, d: Word, w: Word, s: Word, k: Word): Word
    requires s <= 32
  {
    Plus(b, LeftRotate(Sum(F(b, c, d), a, k, w), s))
  }

  /** Four operations of the first round: [ABCD], [DABC], [CDAB], [BCDA]. */
  function FourF(r: Registers, w: Quad<Word>, k: Quad<Word>): Registers {
    var a := FF(r.a, r.b, r.c, r.d, w.a, 7, k.a);
    var d := FF(r.d, a, r.b, r.c, w.b, 12, k.b);
    var c := FF(r.c, d, a, r.b, w.c, 17, k.c);
    var b := FF(r.b, c, d, a, w.d, 22, k.d);
    Quad(a, b, c, d)
  }

  function GG(a: Word, b: Word, c: Word, d: Word, w: Word, s: Word, k: Word): Word
    requires s <= 32
  {
    Plus(b, LeftRotate(Sum(G(b, c, d), a, k, w), s))
  }

  /** Four operations of the second round: [ABCD], [DABC], [CDAB], [BCDA]. */
  function FourG(r: Registers, w: Quad<Word>, k: Quad<Word>): Registers {
    var a := GG(r.a, r.b, r.c, r.d, w.a, 5, k.a);
    var d := GG(r.d, a, r.b, r.c, w.b, 9, k.b);
    var c := GG(r.c, d, a, r.b, w.c, 14, k.c);
    var b := GG(r.b, c, d, a, w.d, 20, k.d);
    Quad(a, b, c, d)
  }

  function HH(a: Word, b: Word, c: Word, d: Word, w: Word, s: Word, k: Word): Word
    requires s <= 32
  {
    Plus(b, LeftRotate(Sum(H(b, c, d), a, k, w), s))
  }

  /** Four operations of the third round: [ABCD], [DABC], [CDAB], [BCDA]. */
  function FourH(r: Registers, w: Quad<Word>, k: Quad<Word>): Registers {
    var a := HH(r.a, r.b, r.c, r.d, w.a, 4, k.a);
    var d := HH(r.d, a, r.b, r.c, w.b, 11, k.b);
    var c := HH(r.c, d, a, r.b, w.c, 16, k.c);
    var b := HH(r.b, c, d, a, w.d, 23, k.d);
    Quad(a, b, c, d)
  }

  function II(a: Word, b: Word, c: Word, d: Word, w: Word, s: Word, k: Word): Word
    requires s <= 32
  {
    Plus(b, LeftRotate(Sum(I(b, c, d), a, k, w), s))
  }

  /** Four operations of the fourth round: [ABCD], [DABC], [CDAB], [BCDA]. */
  function FourI(r: Registers, w: Quad<Word>, k: Quad<Word>): Registers {
    var a := II(r.a, r.b, r.c, r.d, w.a, 6, k.a);
    var d := II(r.d, a, r.b, r.c, w.b, 10, k.b);
    var c := II(r.c, d, a, r.b, w.c, 15, k.c);
    var b := II(r.b, c, d, a, w.d, 21, k.d);
    Quad(a, b, c, d)
  }

  function ConstantsFrom(i: nat): Quad<Word>
    requires i + 4 <= 64
  {
    Quad(CONSTANTS[i], CONSTANTS[i + 1], CONSTANTS[i + 2], CONSTANTS[i + 3])
  }

  function WordsFrom(i: nat, x: Block): Quad<Word>
    requires i + 4 <= 64
  {
    Quad(x[WordIndex(i)], x[WordIndex(i + 1)], x[WordIndex(i + 2)], x[WordIndex(i + 3)])
  }

  /** Four steps from step `i` on, which stands at the start of a group. */
  function Four(i: nat, r: Registers, x: Block): Registers
    requires i + 4 <= 64
  {
    var w, k := WordsFrom(i, x), ConstantsFrom(i);
    if i < 16 then FourF(r, w, k) else if i < 32 then FourG(r, w, k)
    else if i < 48 then FourH(r, w, k) else FourI(r, w, k)
  }

  function Turn(i: nat, a: Word, b: Word, c: Word, d: Word, w: Word, s: Word, k: Word): Word
    requires s <= 32
  {
    if i < 16 then FF(a, b, c, d, w, s, k) else if i < 32 then GG(a, b, c, d, w, s, k)
    else if i < 48 then HH(a, b, c, d, w, s, k) else II(a, b, c, d, w, s, k)
  }

  lemma StepIsTurn(i: nat, r: Registers, x: Block)
    requires i < 64
    ensures 0 < RoundShifts(i)[i % 4] < 32
    ensures Step(i, r, x) ==
            Quad(r.d, Turn(i, r.a, r.b, r.c, r.d, x[WordIndex(i)], RoundShifts(i)[i % 4], CONSTANTS[i]), r.b, r.c)
  {
    hide LeftRotate;
    hide Plus;
    hide Sum;
    hide F;
    hide G;
    hide H;
    hide I;
    hide WordIndex;
    hide RoundShifts;
    hide CONSTANTS;
    ShiftsAreRfc(i);
  }

  lemma FourTurns(i: nat, init: Registers, r: Registers, x: Block, s: Quad<Word>)
    requires i % 4 == 0 && i + 4 <= 64 && Steps(i, init, x) == r
    requires s == Quad(RoundShifts(i)[0], RoundShifts(i)[1], RoundShifts(i)[2], RoundShifts(i)[3])
    requires RoundShifts(i) == RoundShifts(i + 1) == RoundShifts(i + 2) == RoundShifts(i + 3)
    ensures s.a <= 32 && s.b <= 32 && s.c <= 32 && s.d <= 32
    ensures var (w, k) := (WordsFrom(i, x), ConstantsFrom(i));
            var a := Turn(i, r.a, r.b, r.c, r.d, w.a, s.a, k.a);
            var d := Turn(i + 1, r.d, a, r.b, r.c, w.b, s.b, k.b);
            var c := Turn(i + 2, r.c, d, a, r.b, w.c, s.c, k.c);
            var b := Turn(i + 3, r.b, c, d, a, w.d, s.d, k.d);
            Steps(i + 4, init, x) == Quad(a, b, c, d)
  {
    hide Step;
    hide Turn;
    hide WordIndex;
    hide CONSTANTS;
    hide RoundShifts;
    StepIsTurn(i, r, x);
    StepIsTurn(i + 1, Steps(i + 1, init, x), x);
    StepIsTurn(i + 2, Steps(i + 2, init, x), x);
    StepIsTurn(i + 3, Steps(i + 3, init, x), x);
    assert (i + 1) % 4 == 1 && (i + 2) % 4 == 2 && (i + 3) % 4 == 3;
  }

  lemma FourIs(i: nat, init: Registers, r: Registers, x: Block)
    requires i % 4 == 0 && i + 4 <= 64 && Steps(i, init, x) == r
    ensures Steps(i + 4, init, x) == Four(i, r, x)
  {
    hide Steps;
    hide FF;
    hide GG;
    hide HH;
    hide II;
    hide WordsFrom;
    hide ConstantsFrom;
    var s := RoundShifts(i);
    FourTurns(i, init, r, x, Quad(s[0], s[1], s[2], s[3]));
  }

  lemma Constants1()
    ensures ConstantsFrom(0) == Quad(0xd76aa478, 0xe8c7b756, 0x242070db, 0xc1bdceee)
    ensures ConstantsFrom(4) == Quad(0xf57c0faf, 0x4787c62a, 0xa8304613, 0xfd469501)
    ensures ConstantsFrom(8) == Quad(0x698098d8, 0x8b44f7af, 0xffff5bb1, 0x895cd7be)
    ensures ConstantsFrom(12) == Quad(0x6b901122, 0xfd987193, 0xa679438e, 0x49b40821)
  {
    assert |CONSTANTS_1| == |CONSTANTS_2| == |CONSTANTS_3| == |CONSTANTS_4| == 16;
  }

  lemma Constants2()
    ensures ConstantsFrom(16) == Quad(0xf61e2562, 0xc040b340, 0x265e5a51, 0xe9b6c7aa)
    ensures ConstantsFrom(20) == Quad(0xd62f105d, 0x02441453, 0xd8a1e681, 0xe7d3fbc8)
    ensures ConstantsFrom(24) == Quad(0x21e1cde6, 0xc33707d6, 0xf4d50d87, 0x455a14ed)
    ensures ConstantsFrom(28) == Quad(0xa9e3e905, 0xfcefa3f8, 0x676f02d9, 0x8d2a4c8a)
  {
    assert |CONSTANTS_1| == |CONSTANTS_2| == |CONSTANTS_3| == |CONSTANTS_4| == 16;
  }

  lemma Constants3()
    ensures ConstantsFrom(32) == Quad(0xfffa3942, 0x8771f681, 0x6d9d6122, 0xfde5380c)
    ensures ConstantsFrom(36) == Quad(0xa4beea44, 0x4bdecfa9, 0xf6bb4b60, 0xbebfbc70)
    ensures ConstantsFrom(40) == Quad(0x289b7ec6, 0xeaa127fa, 0xd4ef3085, 0x04881d05)
    ensures ConstantsFrom(44) == Quad(0xd9d4d039, 0xe6db99e5, 0x1fa27cf8, 0xc4ac5665)
  {
    assert |CONSTANTS_1| == |CONSTANTS_2| == |CONSTANTS_3| == |CONSTANTS_4| == 16;
  }

  lemma Constants4()
    ensures ConstantsFrom(48) == Quad(0xf4292244, 0x432aff97, 0xab9423a7, 0xfc93a039)
    ensures ConstantsFrom(52) == Quad(0x655b59c3, 0x8f0ccc92, 0xffeff47d, 0x85845dd1)
    ensures ConstantsFrom(56) == Quad(0x6fa87e4f, 0xfe2ce6e0, 0xa3014314, 0x4e0811a1)
    ensures ConstantsFrom(60) == Quad(0xf7537e82, 0xbd3af235, 0x2ad7d2bb, 0xeb86d391)
  {
    assert |CONSTANTS_1| == |CONSTANTS_2| == |CONSTANTS_3| == |CONSTANTS_4| == 16;
  }

  /** The sixteen steps of a round, from its four groups. */
  lemma RoundIs(i: nat, init: Registers, x: Block, r0: Registers, r1: Registers, r2: Registers, r3: Registers)
    requires i % 16 == 0 && i + 16 <= 64 && Steps(i, init, x) == r0
    requires r1 == Four(i, r0, x) && r2 == Four(i + 4, r1, x) && r3 == Four(i + 8, r2, x)
    ensures Steps(i + 16, init, x) == Four(i + 12, r3, x)
  {
    hide Steps;
    hide Four;
    FourIs(i, init, r0, x);
    FourIs(i + 4, init, r1, x);
    FourIs(i + 8, init, r2, x);
    FourIs(i + 12, init, r3, x);
  }

  lemma StepsOfNothing(r: Registers, x: Block)
    ensures Steps(0, r, x) == r
  {
  }

  // ----- messages and their words -----

  lemma LengthField(bits: nat)
    requires bits < 65536
    ensures LittleEndian(bits % Pow256(8), 8) == [bits % 256, bits / 256, 0, 0, 0, 0, 0, 0]
  {
    assert Pow256(8) == 0x1_0000_0000_0000_0000;
    hide Pow256;
    Numbers.SmallModulo(bits, Pow256(8));
    assert LittleEndian(0, 6) == [0, 0, 0, 0, 0, 0];
    assert bits / 256 / 256 == 0;
    assert LittleEndian(bits / 256, 7) == [bits / 256] + LittleEndian(0, 6);
    assert LittleEndian(bits, 8) == [bits % 256] + LittleEndian(bits / 256, 7);
  }

  /** The bytes of a short padded message. */
  function PaddedByte(message: seq<Byte>, k: nat): Byte
    requires |message| < 8192
  {
    var n := |message|;
    var total := n + 9 + Fill(n);
    if k < n then message[k]
    else if k == n then 0x80
    else if k == total - 8 then n * 8 % 256
    else if k == total - 7 then n * 8 / 256
    else 0
  }

  lemma PadAt(message: seq<Byte>, k: nat)
    requires |message| < 8192 && k < |Pad(message)|
    ensures Pad(message)[k] == PaddedByte(message, k)
  {
    hide LittleEndian;
    hide Pow256;
    hide Fill;
    LengthField(|message| * 8);
  }

  function ToWord(b0: Byte, b1: Byte, b2: Byte, b3: Byte): Word {
    b0 as bv32 | (b1 as bv32 << 8) | (b2 as bv32 << 16) | (b3 as bv32 << 24)
  }

  lemma NoBytes()
    ensures ToWord(0, 0, 0, 0) == 0
  {
  }

  lemma WordOfPad(message: seq<Byte>, k: nat, b0: Byte, b1: Byte, b2: Byte, b3: Byte)
    requires |message| < 8192 && k + 4 <= |Pad(message)|
    requires b0 == PaddedByte(message, k) && b1 == PaddedByte(message, k + 1)
    requires b2 == PaddedByte(message, k + 2) && b3 == PaddedByte(message, k + 3)
    ensures WordAt(Pad(message), k) == ToWord(b0, b1, b2, b3)
  {
    hide Pad;
    hide PaddedByte;
    PadAt(message, k);
    PadAt(message, k + 1);
    PadAt(message, k + 2);
    PadAt(message, k + 3);
  }

  lemma LastBlock(data: seq<Byte>, i: nat, r: Registers)
    requires i + 64 == |data|
    ensures RfcDigest(data, i, r) == Add(r, Steps(64, r, BlockAt(data, i)))
  {
    hide Add;
    hide RfcSteps;
    hide Steps;
    hide BlockAt;
    LoopRefinesRfc(64, r, BlockAt(data, i));
    var next := Add(r, RfcSteps(64, r, BlockAt(data, i)));
    assert RfcDigest(data, i + 64, next) == next;
  }

  lemma FirstBlock(data: seq<Byte>, i: nat, r: Registers)
    requires i + 64 <= |data|
    ensures RfcDigest(data, i, r) == RfcDigest(data, i + 64, Add(r, Steps(64, r, BlockAt(data, i))))
  {
    hide Add;
    hide RfcSteps;
    hide Steps;
    hide BlockAt;
    LoopRefinesRfc(64, r, BlockAt(data, i));
  }

  predicate IsEmpty(x: Block) {
    && x[0] == 0x00000080 && x[1] == 0x00000000 && x[2] == 0x00000000 && x[3] == 0x00000000
    && x[4] == 0x00000000 && x[5] == 0x00000000 && x[6] == 0x00000000 && x[7] == 0x00000000
    && x[8] == 0x00000000 && x[9] == 0x00000000 && x[10] == 0x00000000 && x[11] == 0x00000000
    && x[12] == 0x00000000 && x[13] == 0x00000000 && x[14] == 0x00000000 && x[15] == 0x00000000
  }

  lemma EmptyRound1()
    ensures FourF(Quad(0x67452301, 0xefcdab89, 0x98badcfe, 0x10325476),
                  Quad(0x00000080, 0x00000000, 0x00000000, 0x00000000),
                  Quad(0xd76aa478, 0xe8c7b756, 0x242070db, 0xc1bdceee)) ==
            Quad(0xa5202774, 0x1b163203, 0xe7f06b23, 0xf59592dd)
    ensures FourF(Quad(0xa5202774, 0x1b163203, 0xe7f06b23, 0xf59592dd),
                  Quad(0x00000000, 0x00000000, 0x00000000, 0x00000000),
                  Quad(0xf57c0faf, 0x4787c62a, 0xa8304613, 0xfd469501)) ==
            Quad(0x32033344, 0x9bc13ce9, 0xf5b158db, 0x2f35d494)
    ensures FourF(Quad(0x32033344, 0x9bc13ce9, 0xf5b158db, 0x2f35d494),
                  Quad(0x00000000, 0x00000000, 0x00000000, 0x00000000),
                  Quad(0x698098d8, 0x8b44f7af, 0xffff5bb1, 0x895cd7be)) ==
            Quad(0x3893b991, 0x70768a29, 0xe1ef0576, 0xfce4a312)
    ensures FourF(Quad(0x3893b991, 0x70768a29, 0xe1ef0576, 0xfce4a312),
                  Quad(0x00000000, 0x00000000, 0x00000000, 0x00000000),
                  Quad(0x6b901122, 0xfd987193, 0xa679438e, 0x49b40821)) ==
            Quad(0xf56c7cf1, 0xd6819c6a, 0x5aa53f75, 0x374943a7)
  {
  }

  lemma EmptyRound2()
    ensures FourG(Quad(0xf56c7cf1, 0xd6819c6a, 0x5aa53f75, 0x374943a7),
                  Quad(0x00000000, 0x00000000, 0x00000000, 0x00000080),
                  Quad(0xf61e2562, 0xc040b340, 0x265e5a51, 0xe9b6c7aa)) ==
            Quad(0x1c7d7513, 0xbd782e17, 0xc095f13a, 0x7bd57a3a)
    ensures FourG(Quad(0x1c7d7513, 0xbd782e17, 0xc095f13a, 0x7bd57a3a),
                  Quad(0x00000000, 0x00000000, 0x00000000, 0x00000000),
                  Quad(0xd62f105d, 0x02441453, 0xd8a1e681, 0xe7d3fbc8)) ==
            Quad(0x3d1e3e6c, 0xe422531a, 0xeb41643e, 0x68b7b3e3)
    ensures FourG(Quad(0x3d1e3e6c, 0xe422531a, 0xeb41643e, 0x68b7b3e3),
                  Quad(0x00000000, 0x00000000, 0x00000000, 0x00000000),
                  Quad(0x21e1cde6, 0xc33707d6, 0xf4d50d87, 0x455a14ed)) ==
            Quad(0x306ec122, 0xa0572807, 0xa3c663da, 0xd28c77c2)
    ensures FourG(Quad(0x306ec122, 0xa0572807, 0xa3c663da, 0xd28c77c2),
                  Quad(0x00000000, 0x00000000, 0x00000000, 0x00000000),
                  Quad(0xa9e3e905, 0xfcefa3f8, 0x676f02d9, 0x8d2a4c8a)) ==
            Quad(0x13707036, 0xa2205f1f, 0x1c31c384, 0xae7813db)
  {
  }

  lemma EmptyRound3()
    ensures FourH(Quad(0x13707036, 0xa2205f1f, 0x1c31c384, 0xae7813db),
                  Quad(0x00000000, 0x00000000, 0x00000000, 0x00000000),
                  Quad(0xfffa3942, 0x8771f681, 0x6d9d6122, 0xfde5380c)) ==
            Quad(0xdf63eaa1, 0x004b6669, 0x12f3e755, 0xc3689f5b)
    ensures FourH(Quad(0xdf63eaa1, 0x004b6669, 0x12f3e755, 0xc3689f5b),
                  Quad(0x00000000, 0x00000000, 0x00000000, 0x00000000),
                  Quad(0xa4beea44, 0x4bdecfa9, 0xf6bb4b60, 0xbebfbc70)) ==
            Quad(0x5f7a9b2e, 0xc5dc8c15, 0x91ca4cb7, 0xabc34e16)
    ensures FourH(Quad(0x5f7a9b2e, 0xc5dc8c15, 0x91ca4cb7, 0xabc34e16),
                  Quad(0x00000000, 0x00000080, 0x00000000, 0x00000000),
                  Quad(0x289b7ec6, 0xeaa127fa, 0xd4ef3085, 0x04881d05)) ==
            Quad(0x4497169d, 0x0fe32453, 0xfd95f243, 0x76fd93d4)
    ensures FourH(Quad(0x4497169d, 0x0fe32453, 0xfd95f243, 0x76fd93d4),
                  Quad(0x00000000, 0x00000000, 0x00000000, 0x00000000),
                  Quad(0xd9d4d039, 0xe6db99e5, 0x1fa27cf8, 0xc4ac5665)) ==
            Quad(0x3f55edfd, 0xca7d2dbd, 0x68d84ea2, 0x22a31f54)
  {
  }

  lemma EmptyRound4()
    ensures FourI(Quad(0x3f55edfd, 0xca7d2dbd, 0x68d84ea2, 0x22a31f54),
                  Quad(0x00000080, 0x00000000, 0x00000000, 0x00000000),
                  Quad(0xf4292244, 0x432aff97, 0xab9423a7, 0xfc93a039)) ==
            Quad(0x93aa2577, 0x561e0689, 0xcd85b8cb, 0x1688dc85)
    ensures FourI(Quad(0x93aa2577, 0x561e0689, 0xcd85b8cb, 0x1688dc85),
                  Quad(0x00000000, 0x00000000, 0x00000000, 0x00000000),
                  Quad(0x655b59c3, 0x8f0ccc92, 0xffeff47d, 0x85845dd1)) ==
            Quad(0x5625a114, 0x1e77fa61, 0x392ad0d0, 0x3450f42b)
    ensures FourI(Quad(0x5625a114, 0x1e77fa61, 0x392ad0d0, 0x3450f42b),
                  Quad(0x00000000, 0x00000000, 0x00000000, 0x00000000),
                  Quad(0x6fa87e4f, 0xfe2ce6e0, 0xa3014314, 0x4e0811a1)) ==
            Quad(0x474a9c8c, 0x30130182, 0x36594b14, 0xdfce00bc)
    ensures FourI(Quad(0x474a9c8c, 0x30130182, 0x36594b14, 0xdfce00bc),
                  Quad(0x00000000, 0x00000000, 0x00000000, 0x00000000),
                  Quad(0xf7537e82, 0xbd3af235, 0x2ad7d2bb, 0xeb86d391)) ==
            Quad(0x7246fad3, 0x14e45506, 0xff4ea3eb, 0x6e10a476)
  {
  }

  lemma EmptyAfter(x: Block)
    requires IsEmpty(x)
    ensures Steps(64, Quad(0x67452301, 0xefcdab89, 0x98badcfe, 0x10325476), x) ==
            Quad(0x7246fad3, 0x14e45506, 0xff4ea3eb, 0x6e10a476)
  {
    hide CONSTANTS;
    hide ConstantsFrom;
    hide FourF;
    hide FourG;
    hide FourH;
    hide FourI;
    hide Steps;
    var init := Quad(0x67452301, 0xefcdab89, 0x98badcfe, 0x10325476);
    StepsOfNothing(init, x);
    Constants1();
    EmptyRound1();
    RoundIs(0, init, x, Quad(0x67452301, 0xefcdab89, 0x98badcfe, 0x10325476),
            Quad(0xa5202774, 0x1b163203, 0xe7f06b23, 0xf59592dd),
            Quad(0x32033344, 0x9bc13ce9, 0xf5b158db, 0x2f35d494),
            Quad(0x3893b991, 0x70768a29, 0xe1ef0576, 0xfce4a312));
    Constants2();
    EmptyRound2();
    RoundIs(16, init, x, Quad(0xf56c7cf1, 0xd6819c6a, 0x5aa53f75, 0x374943a7),
            Quad(0x1c7d7513, 0xbd782e17, 0xc095f13a, 0x7bd57a3a),
            Quad(0x3d1e3e6c, 0xe422531a, 0xeb41643e, 0x68b7b3e3),
            Quad(0x306ec122, 0xa0572807, 0xa3c663da, 0xd28c77c2));
    Constants3();
    EmptyRound3();
    RoundIs(32, init, x, Quad(0x13707036, 0xa2205f1f, 0x1c31c384, 0xae7813db),
            Quad(0xdf63eaa1, 0x004b6669, 0x12f3e755, 0xc3689f5b),
            Quad(0x5f7a9b2e, 0xc5dc8c15, 0x91ca4cb7, 0xabc34e16),
            Quad(0x4497169d, 0x0fe32453, 0xfd95f243, 0x76fd93d4));
    Constants4();
    EmptyRound4();
    RoundIs(48, init, x, Quad(0x3f55edfd, 0xca7d2dbd, 0x68d84ea2, 0x22a31f54),
            Quad(0x93aa2577, 0x561e0689, 0xcd85b8cb, 0x1688dc85),
            Quad(0x5625a114, 0x1e77fa61, 0x392ad0d0, 0x3450f42b),
            Quad(0x474a9c8c, 0x30130182, 0x36594b14, 0xdfce00bc));
  }

  lemma EmptyBytes()
    ensures ToWord(128, 0, 0, 0) == 0x00000080
  {
  }

  lemma EmptyWords(data: seq<Byte>)
    requires data == Pad([])
    ensures |data| == 64
    ensures IsEmpty(BlockAt(data, 0))
  {
    hide ToWord;
    hide WordAt;
    hide LittleEndian;
    hide Pow256;
    FillValue(0);
    PadLength([]);
    NoBytes();
    EmptyBytes();
    WordOfPad([], 0, 128, 0, 0, 0);
    WordOfPad([], 4, 0, 0, 0, 0);
    WordOfPad([], 8, 0, 0, 0, 0);
    WordOfPad([], 12, 0, 0, 0, 0);
    WordOfPad([], 16, 0, 0, 0, 0);
    WordOfPad([], 20, 0, 0, 0, 0);
    WordOfPad([], 24, 0, 0, 0, 0);
    WordOfPad([], 28, 0, 0, 0, 0);
    WordOfPad([], 32, 0, 0, 0, 0);
    WordOfPad([], 36, 0, 0, 0, 0);
    WordOfPad([], 40, 0, 0, 0, 0);
    WordOfPad([], 44, 0, 0, 0, 0);
    WordOfPad([], 48, 0, 0, 0, 0);
    WordOfPad([], 52, 0, 0, 0, 0);
    WordOfPad([], 56, 0, 0, 0, 0);
    WordOfPad([], 60, 0, 0, 0, 0);
  }

  lemma EmptyAnswer()
    ensures Rfc1321([]) == "d41d8cd98f00b204e9800998ecf8427e"
  {
    hide Pad;
    hide BlockAt;
    hide Steps;
    hide RfcDigest;
    var data := Pad([]);
    EmptyWords(data);
    EmptyAfter(BlockAt(data, 0));
    LastBlock(data, 0, Quad(0x67452301, 0xefcdab89, 0x98badcfe, 0x10325476));
    HexOfEmpty();
  }

  lemma HexOfEmpty()
    ensures Hex(Quad(0xd98c1dd4, 0x04b2008f, 0x980980e9, 0x7e42f8ec)) == "d41d8cd98f00b204e9800998ecf8427e"
  {
  }

  predicate IsAbc(x: Block) {
    && x[0] == 0x80636261 && x[1] == 0x00000000 && x[2] == 0x00000000 && x[3] == 0x00000000
    && x[4] == 0x00000000 && x[5] == 0x00000000 && x[6] == 0x00000000 && x[7] == 0x00000000
    && x[8] == 0x00000000 && x[9] == 0x00000000 && x[10] == 0x00000000 && x[11] == 0x00000000
    && x[12] == 0x00000000 && x[13] == 0x00000000 && x[14] == 0x00000018 && x[15] == 0x00000000
  }

  lemma AbcRound1()
    ensures FourF(Quad(0x67452301, 0xefcdab89, 0x98badcfe, 0x10325476),
                  Quad(0x80636261, 0x00000000, 0x00000000, 0x00000000),
                  Quad(0xd76aa478, 0xe8c7b756, 0x242070db, 0xc1bdceee)) ==
            Quad(0xd6d117b4, 0x7ad956f2, 0x2f6fbd72, 0x344a8432)
    ensures FourF(Quad(0xd6d117b4, 0x7ad956f2, 0x2f6fbd72, 0x344a8432),
                  Quad(0x00000000, 0x00000000, 0x00000000, 0x00000000),
                  Quad(0xf57c0faf, 0x4787c62a, 0xa8304613, 0xfd469501)) ==
            Quad(0xc73741ef, 0x928d99f6, 0x207dc67b, 0x8bac3051)
    ensures FourF(Quad(0xc73741ef, 0x928d99f6, 0x207dc67b, 0x8bac3051),
                  Quad(0x00000000, 0x00000000, 0x00000000, 0x00000000),
                  Quad(0x698098d8, 0x8b44f7af, 0xffff5bb1, 0x895cd7be)) ==
            Quad(0x854b3712, 0x5ed49596, 0x3020401c, 0x74e2f284)
    ensures FourF(Quad(0x854b3712, 0x5ed49596, 0x3020401c, 0x74e2f284),
                  Quad(0x00000000, 0x00000000, 0x00000018, 0x00000000),
                  Quad(0x6b901122, 0xfd987193, 0xa679438e, 0x49b40821)) ==
            Quad(0xdda9b9a6, 0x72aff2e0, 0xe396856b, 0xa1051895)
  {
  }

  lemma AbcRound2()
    ensures FourG(Quad(0xdda9b9a6, 0x72aff2e0, 0xe396856b, 0xa1051895),
                  Quad(0x00000000, 0x00000000, 0x00000000, 0x80636261),
                  Quad(0xf61e2562, 0xc040b340, 0x265e5a51, 0xe9b6c7aa)) ==
            Quad(0x3e9e9126, 0xb5b204e4, 0xe25e1652, 0x4a1d804e)
    ensures FourG(Quad(0x3e9e9126, 0xb5b204e4, 0xe25e1652, 0x4a1d804e),
                  Quad(0x00000000, 0x00000000, 0x00000000, 0x00000000),
                  Quad(0xd62f105d, 0x02441453, 0xd8a1e681, 0xe7d3fbc8)) ==
            Quad(0x59a8ffda, 0x47092c07, 0xabfc7920, 0x6d002f1e)
    ensures FourG(Quad(0x59a8ffda, 0x47092c07, 0xabfc7920, 0x6d002f1e),
                  Quad(0x00000000, 0x00000018, 0x00000000, 0x00000000),
                  Quad(0x21e1cde6, 0xc33707d6, 0xf4d50d87, 0x455a14ed)) ==
            Quad(0xb7f268cf, 0x786acb8f, 0xfe1623b1, 0x09388eff)
    ensures FourG(Quad(0xb7f268cf, 0x786acb8f, 0xfe1623b1, 0x09388eff),
                  Quad(0x00000000, 0x00000000, 0x00000000, 0x00000000),
                  Quad(0xa9e3e905, 0xfcefa3f8, 0x676f02d9, 0x8d2a4c8a)) ==
            Quad(0x790a77fb, 0x726342d3, 0xa62884aa, 0x9f47e4f8)
  {
  }

  lemma AbcRound3()
    ensures FourH(Quad(0x790a77fb, 0x726342d3, 0xa62884aa, 0x9f47e4f8),
                  Quad(0x00000000, 0x00000000, 0x00000000, 0x00000018),
                  Quad(0xfffa3942, 0x8771f681, 0x6d9d6122, 0xfde5380c)) ==
            Quad(0xb3707ebf, 0x3b0875c7, 0x8d212ff5, 0x60127b2e)
    ensures FourH(Quad(0xb3707ebf, 0x3b0875c7, 0x8d212ff5, 0x60127b2e),
                  Quad(0x00000000, 0x00000000, 0x00000000, 0x00000000),
                  Quad(0xa4beea44, 0x4bdecfa9, 0xf6bb4b60, 0xbebfbc70)) ==
            Quad(0x21b117b9, 0x5a2f5ea5, 0x3575227e, 0x6e7429d5)
    ensures FourH(Quad(0x21b117b9, 0x5a2f5ea5, 0x3575227e, 0x6e7429d5),
                  Quad(0x00000000, 0x80636261, 0x00000000, 0x00000000),
                  Quad(0x289b7ec6, 0xeaa127fa, 0xd4ef3085, 0x04881d05)) ==
            Quad(0x11de1779, 0x4c6124f4, 0x31c465ca, 0xfadcaa38)
    ensures FourH(Quad(0x11de1779, 0x4c6124f4, 0x31c465ca, 0xfadcaa38),
                  Quad(0x00000000, 0x00000000, 0x00000000, 0x00000000),
                  Quad(0xd9d4d039, 0xe6db99e5, 0x1fa27cf8, 0xc4ac5665)) ==
            Quad(0x7f2e507b, 0x7beb9700, 0x8fae6399, 0x99d9679d)
  {
  }

  lemma AbcRound4()
    ensures FourI(Quad(0x7f2e507b, 0x7beb9700, 0x8fae6399, 0x99d9679d),
                  Quad(0x80636261, 0x00000000, 0x00000018, 0x00000000),
                  Quad(0xf4292244, 0x432aff97, 0xab9423a7, 0xfc93a039)) ==
            Quad(0x7b201df8, 0x8bf025c4, 0xb298cefd, 0xf4e8e96e)
    ensures FourI(Quad(0x7b201df8, 0x8bf025c4, 0xb298cefd, 0xf4e8e96e),
                  Quad(0x00000000, 0x00000000, 0x00000000, 0x00000000),
                  Quad(0x655b59c3, 0x8f0ccc92, 0xffeff47d, 0x85845dd1)) ==
            Quad(0x06cc5e8a, 0x3bfa2c27, 0x7d632dd0, 0x5b0d97aa)
    ensures FourI(Quad(0x06cc5e8a, 0x3bfa2c27, 0x7d632dd0, 0x5b0d97aa),
                  Quad(0x00000000, 0x00000000, 0x00000000, 0x00000000),
                  Quad(0x6fa87e4f, 0xfe2ce6e0, 0xa3014314, 0x4e0811a1)) ==
            Quad(0x7f81cc35, 0x7327d604, 0x4f9dbe3f, 0x094454ab)
    ensures FourI(Quad(0x7f81cc35, 0x7327d604, 0x4f9dbe3f, 0x094454ab),
                  Quad(0x00000000, 0x00000000, 0x00000000, 0x00000000),
                  Quad(0xf7537e82, 0xbd3af235, 0x2ad7d2bb, 0xeb86d391)) ==
            Quad(0x310ade8f, 0xc08226b3, 0xe484b9d8, 0x624d8cb2)
  {
  }

  lemma AbcAfter(x: Block)
    requires IsAbc(x)
    ensures Steps(64, Quad(0x67452301, 0xefcdab89, 0x98badcfe, 0x10325476), x) ==
            Quad(0x310ade8f, 0xc08226b3, 0xe484b9d8, 0x624d8cb2)
  {
    hide CONSTANTS;
    hide ConstantsFrom;
    hide FourF;
    hide FourG;
    hide FourH;
    hide FourI;
    hide Steps;
    var init := Quad(0x67452301, 0xefcdab89, 0x98badcfe, 0x10325476);
    StepsOfNothing(init, x);
    Constants1();
    AbcRound1();
    RoundIs(0, init, x, Quad(0x67452301, 0xefcdab89, 0x98badcfe, 0x10325476),
            Quad(0xd6d117b4, 0x7ad956f2, 0x2f6fbd72, 0x344a8432),
            Quad(0xc73741ef, 0x928d99f6, 0x207dc67b, 0x8bac3051),
            Quad(0x854b3712, 0x5ed49596, 0x3020401c, 0x74e2f284));
    Constants2();
    AbcRound2();
    RoundIs(16, init, x, Quad(0xdda9b9a6, 0x72aff2e0, 0xe396856b, 0xa1051895),
            Quad(0x3e9e9126, 0xb5b204e4, 0xe25e1652, 0x4a1d804e),
            Quad(0x59a8ffda, 0x47092c07, 0xabfc7920, 0x6d002f1e),
            Quad(0xb7f268cf, 0x786acb8f, 0xfe1623b1, 0x09388eff));
    Constants3();
    AbcRound3();
    RoundIs(32, init, x, Quad(0x790a77fb, 0x726342d3, 0xa62884aa, 0x9f47e4f8),
            Quad(0xb3707ebf, 0x3b0875c7, 0x8d212ff5, 0x60127b2e),
            Quad(0x21b117b9, 0x5a2f5ea5, 0x3575227e, 0x6e7429d5),
            Quad(0x11de1779, 0x4c6124f4, 0x31c465ca, 0xfadcaa38));
    Constants4();
    AbcRound4();
    RoundIs(48, init, x, Quad(0x7f2e507b, 0x7beb9700, 0x8fae6399, 0x99d9679d),
            Quad(0x7b201df8, 0x8bf025c4, 0xb298cefd, 0xf4e8e96e),
            Quad(0x06cc5e8a, 0x3bfa2c27, 0x7d632dd0, 0x5b0d97aa),
            Quad(0x7f81cc35, 0x7327d604, 0x4f9dbe3f, 0x094454ab));
  }

  lemma AbcBytes()
    ensures ToWord(24, 0, 0, 0) == 0x00000018
    ensures ToWord(97, 98, 99, 128) == 0x80636261
  {
  }

  lemma AbcWords(data: seq<Byte>)
    requires data == Pad([0x61, 0x62, 0x63])
    ensures |data| == 64
    ensures IsAbc(BlockAt(data, 0))
  {
    hide ToWord;
    hide WordAt;
    hide LittleEndian;
    hide Pow256;
    FillValue(3);
    PadLength([0x61, 0x62, 0x63]);
    NoBytes();
    AbcBytes();
    WordOfPad([0x61, 0x62, 0x63], 0, 97, 98, 99, 128);
    WordOfPad([0x61, 0x62, 0x63], 4, 0, 0, 0, 0);
    WordOfPad([0x61, 0x62, 0x63], 8, 0, 0, 0, 0);
    WordOfPad([0x61, 0x62, 0x63], 12, 0, 0, 0, 0);
    WordOfPad([0x61, 0x62, 0x63], 16, 0, 0, 0, 0);
    WordOfPad([0x61, 0x62, 0x63], 20, 0, 0, 0, 0);
    WordOfPad([0x61, 0x62, 0x63], 24, 0, 0, 0, 0);
    WordOfPad([0x61, 0x62, 0x63], 28, 0, 0, 0, 0);
    WordOfPad([0x61, 0x62, 0x63], 32, 0, 0, 0, 0);
    WordOfPad([0x61, 0x62, 0x63], 36, 0, 0, 0, 0);
    WordOfPad([0x61, 0x62, 0x63], 40, 0, 0, 0, 0);
    WordOfPad([0x61, 0x62, 0x63], 44, 0, 0, 0, 0);
    WordOfPad([0x61, 0x62, 0x63], 48, 0, 0, 0, 0);
    WordOfPad([0x61, 0x62, 0x63], 52, 0, 0, 0, 0);
    WordOfPad([0x61, 0x62, 0x63], 56, 24, 0, 0, 0);
    WordOfPad([0x61, 0x62, 0x63], 60, 0, 0, 0, 0);
  }

  lemma AbcAnswer()
    ensures Rfc1321([0x61, 0x62, 0x63]) == "900150983cd24fb0d6963f7d28e17f72"
  {
    hide Pad;
    hide BlockAt;
    hide Steps;
    hide RfcDigest;
    var data := Pad([0x61, 0x62, 0x63]);
    AbcWords(data);
    AbcAfter(BlockAt(data, 0));
    LastBlock(data, 0, Quad(0x67452301, 0xefcdab89, 0x98badcfe, 0x10325476));
    HexOfAbc();
  }

  lemma HexOfAbc()
    ensures Hex(Quad(0x98500190, 0xb04fd23c, 0x7d3f96d6, 0x727fe128)) == "900150983cd24fb0d6963f7d28e17f72"
  {
  }

  /** The text 1234567890, eight times over. */
  function Digits(): (message: seq<Byte>)
    ensures |message| == 80
  {
    seq(80, k requires 0 <= k < 80 => 0x30 + (k + 1) % 10)
  }

  predicate IsDigitsFront(x: Block) {
    && x[0] == 0x34333231 && x[1] == 0x38373635 && x[2] == 0x32313039 && x[3] == 0x36353433
    && x[4] == 0x30393837 && x[5] == 0x34333231 && x[6] == 0x38373635 && x[7] == 0x32313039
    && x[8] == 0x36353433 && x[9] == 0x30393837 && x[10] == 0x34333231 && x[11] == 0x38373635
    && x[12] == 0x32313039 && x[13] == 0x36353433 && x[14] == 0x30393837 && x[15] == 0x34333231
  }

  lemma DigitsFrontRound1()
    ensures FourF(Quad(0x67452301, 0xefcdab89, 0x98badcfe, 0x10325476),
                  Quad(0x34333231, 0x38373635, 0x32313039, 0x36353433),
                  Quad(0xd76aa478, 0xe8c7b756, 0x242070db, 0xc1bdceee)) ==
            Quad(0xbeb8ff8e, 0x862797b0, 0xf8cdf95d, 0x7d989d89)
    ensures FourF(Quad(0xbeb8ff8e, 0x862797b0, 0xf8cdf95d, 0x7d989d89),
                  Quad(0x30393837, 0x34333231, 0x38373635, 0x32313039),
                  Quad(0xf57c0faf, 0x4787c62a, 0xa8304613, 0xfd469501)) ==
            Quad(0x8c17de9f, 0xc57e78c1, 0xe99fec1b, 0xc0f32d81)
    ensures FourF(Quad(0x8c17de9f, 0xc57e78c1, 0xe99fec1b, 0xc0f32d81),
                  Quad(0x36353433, 0x30393837, 0x34333231, 0x38373635),
                  Quad(0x698098d8, 0x8b44f7af, 0xffff5bb1, 0x895cd7be)) ==
            Quad(0x7c0aceb7, 0xa5f36f8d, 0x5186a8ba, 0x8869d2d8)
    ensures FourF(Quad(0x7c0aceb7, 0xa5f36f8d, 0x5186a8ba, 0x8869d2d8),
                  Quad(0x32313039, 0x36353433, 0x30393837, 0x34333231),
                  Quad(0x6b901122, 0xfd987193, 0xa679438e, 0x49b40821)) ==
            Quad(0x5157e49e, 0xaf506a03, 0x27e983a0, 0xffac907e)
  {
  }

  lemma DigitsFrontRound2()
    ensures FourG(Quad(0x5157e49e, 0xaf506a03, 0x27e983a0, 0xffac907e),
                  Quad(0x38373635, 0x38373635, 0x38373635, 0x34333231),
                  Quad(0xf61e2562, 0xc040b340, 0x265e5a51, 0xe9b6c7aa)) ==
            Quad(0x8d18e0e8, 0x04280170, 0xef223167, 0x07de0df2)
    ensures FourG(Quad(0x8d18e0e8, 0x04280170, 0xef223167, 0x07de0df2),
                  Quad(0x34333231, 0x34333231, 0x34333231, 0x30393837),
                  Quad(0xd62f105d, 0x02441453, 0xd8a1e681, 0xe7d3fbc8)) ==
            Quad(0x78929ee0, 0xad400a91, 0xb18aca50, 0x375c6c2c)
    ensures FourG(Quad(0x78929ee0, 0xad400a91, 0xb18aca50, 0x375c6c2c),
                  Quad(0x30393837, 0x30393837, 0x36353433, 0x36353433),
                  Quad(0x21e1cde6, 0xc33707d6, 0xf4d50d87, 0x455a14ed)) ==
            Quad(0xbb45f43f, 0xb70e35a9, 0x98ade6b5, 0xd61f8a0f)
    ensures FourG(Quad(0xbb45f43f, 0xb70e35a9, 0x98ade6b5, 0xd61f8a0f),
                  Quad(0x36353433, 0x32313039, 0x32313039, 0x32313039),
                  Quad(0xa9e3e905, 0xfcefa3f8, 0x676f02d9, 0x8d2a4c8a)) ==
            Quad(0xf8bcfbb0, 0x1bf25662, 0x99a0f1b8, 0xd760ed39)
  {
  }

  lemma DigitsFrontRound3()
    ensures FourH(Quad(0xf8bcfbb0, 0x1bf25662, 0x99a0f1b8, 0xd760ed39),
                  Quad(0x34333231, 0x36353433, 0x38373635, 0x30393837),
                  Quad(0xfffa3942, 0x8771f681, 0x6d9d6122, 0xfde5380c)) ==
            Quad(0x3dbd76ca, 0xe0162f49, 0xc7ed7c30, 0xfd056171)
    ensures FourH(Quad(0x3dbd76ca, 0xe0162f49, 0xc7ed7c30, 0xfd056171),
                  Quad(0x38373635, 0x30393837, 0x32313039, 0x34333231),
                  Quad(0xa4beea44, 0x4bdecfa9, 0xf6bb4b60, 0xbebfbc70)) ==
            Quad(0x3b32c408, 0x1d4d6f72, 0x9ef871ad, 0x7338d8b7)
    ensures FourH(Quad(0x3b32c408, 0x1d4d6f72, 0x9ef871ad, 0x7338d8b7),
                  Quad(0x36353433, 0x34333231, 0x36353433, 0x38373635),
                  Quad(0x289b7ec6, 0xeaa127fa, 0xd4ef3085, 0x04881d05)) ==
            Quad(0xc661460a, 0x89e3c4d7, 0xd6d5b879, 0xd2bf04c9)
    ensures FourH(Quad(0xc661460a, 0x89e3c4d7, 0xd6d5b879, 0xd2bf04c9),
                  Quad(0x30393837, 0x32313039, 0x34333231, 0x32313039),
                  Quad(0xd9d4d039, 0xe6db99e5, 0x1fa27cf8, 0xc4ac5665)) ==
            Quad(0x697032ec, 0xdb4197da, 0xefc2c171, 0xfa597bfc)
  {
  }

  lemma DigitsFrontRound4()
    ensures FourI(Quad(0x697032ec, 0xdb4197da, 0xefc2c171, 0xfa597bfc),
                  Quad(0x34333231, 0x32313039, 0x30393837, 0x34333231),
                  Quad(0xf4292244, 0x432aff97, 0xab9423a7, 0xfc93a039)) ==
            Quad(0x57b91aca, 0xcaa25b01, 0x21efbd88, 0x210c9ebc)
    ensures FourI(Quad(0x57b91aca, 0xcaa25b01, 0x21efbd88, 0x210c9ebc),
                  Quad(0x32313039, 0x36353433, 0x34333231, 0x38373635),
                  Quad(0x655b59c3, 0x8f0ccc92, 0xffeff47d, 0x85845dd1)) ==
            Quad(0x633d3f7c, 0x7713f5df, 0xccaa1524, 0x1a4d3beb)
    ensures FourI(Quad(0x633d3f7c, 0x7713f5df, 0xccaa1524, 0x1a4d3beb),
                  Quad(0x36353433, 0x34333231, 0x38373635, 0x36353433),
                  Quad(0x6fa87e4f, 0xfe2ce6e0, 0xa3014314, 0x4e0811a1)) ==
            Quad(0x8448b430, 0x660a801d, 0x7e294727, 0x71c93463)
    ensures FourI(Quad(0x8448b430, 0x660a801d, 0x7e294727, 0x71c93463),
                  Quad(0x30393837, 0x38373635, 0x32313039, 0x30393837),
                  Quad(0xf7537e82, 0xbd3af235, 0x2ad7d2bb, 0xeb86d391)) ==
            Quad(0x614868eb, 0xb4d33102, 0x5133129b, 0xa09f38a7)
  {
  }

  lemma DigitsFrontAfter(x: Block)
    requires IsDigitsFront(x)
    ensures Steps(64, Quad(0x67452301, 0xefcdab89, 0x98badcfe, 0x10325476), x) ==
            Quad(0x614868eb, 0xb4d33102, 0x5133129b, 0xa09f38a7)
  {
    hide CONSTANTS;
    hide ConstantsFrom;
    hide FourF;
    hide FourG;
    hide FourH;
    hide FourI;
    hide Steps;
    var init := Quad(0x67452301, 0xefcdab89, 0x98badcfe, 0x10325476);
    StepsOfNothing(init, x);
    Constants1();
    DigitsFrontRound1();
    RoundIs(0, init, x, Quad(0x67452301, 0xefcdab89, 0x98badcfe, 0x10325476),
            Quad(0xbeb8ff8e, 0x862797b0, 0xf8cdf95d, 0x7d989d89),
            Quad(0x8c17de9f, 0xc57e78c1, 0xe99fec1b, 0xc0f32d81),
            Quad(0x7c0aceb7, 0xa5f36f8d, 0x5186a8ba, 0x8869d2d8));
    Constants2();
    DigitsFrontRound2();
    RoundIs(16, init, x, Quad(0x5157e49e, 0xaf506a03, 0x27e983a0, 0xffac907e),
            Quad(0x8d18e0e8, 0x04280170, 0xef223167, 0x07de0df2),
            Quad(0x78929ee0, 0xad400a91, 0xb18aca50, 0x375c6c2c),
            Quad(0xbb45f43f, 0xb70e35a9, 0x98ade6b5, 0xd61f8a0f));
    Constants3();
    DigitsFrontRound3();
    RoundIs(32, init, x, Quad(0xf8bcfbb0, 0x1bf25662, 0x99a0f1b8, 0xd760ed39),
            Quad(0x3dbd76ca, 0xe0162f49, 0xc7ed7c30, 0xfd056171),
            Quad(0x3b32c408, 0x1d4d6f72, 0x9ef871ad, 0x7338d8b7),
            Quad(0xc661460a, 0x89e3c4d7, 0xd6d5b879, 0xd2bf04c9));
    Constants4();
    DigitsFrontRound4();
    RoundIs(48, init, x, Quad(0x697032ec, 0xdb4197da, 0xefc2c171, 0xfa597bfc),
            Quad(0x57b91aca, 0xcaa25b01, 0x21efbd88, 0x210c9ebc),
            Quad(0x633d3f7c, 0x7713f5df, 0xccaa1524, 0x1a4d3beb),
            Quad(0x8448b430, 0x660a801d, 0x7e294727, 0x71c93463));
  }

  predicate IsDigitsBack(x: Block) {
    && x[0] == 0x38373635 && x[1] == 0x32313039 && x[2] == 0x36353433 && x[3] == 0x30393837
    && x[4] == 0x00000080 && x[5] == 0x00000000 && x[6] == 0x00000000 && x[7] == 0x00000000
    && x[8] == 0x00000000 && x[9] == 0x00000000 && x[10] == 0x00000000 && x[11] == 0x00000000
    && x[12] == 0x00000000 && x[13] == 0x00000000 && x[14] == 0x00000280 && x[15] == 0x00000000
  }

  lemma DigitsBackRound1()
    ensures FourF(Quad(0xc88d8bec, 0xa4a0dc8b, 0xe9edef99, 0xb0d18d1d),
                  Quad(0x38373635, 0x32313039, 0x36353433, 0x30393837),
                  Quad(0xd76aa478, 0xe8c7b756, 0x242070db, 0xc1bdceee)) ==
            Quad(0x353af7cf, 0x45e88f2c, 0x63356537, 0x3a4f735a)
    ensures FourF(Quad(0x353af7cf, 0x45e88f2c, 0x63356537, 0x3a4f735a),
                  Quad(0x00000080, 0x00000000, 0x00000000, 0x00000000),
                  Quad(0xf57c0faf, 0x4787c62a, 0xa8304613, 0xfd469501)) ==
            Quad(0x3527497e, 0x377c7d0a, 0x948347ae, 0xab92660e)
    ensures FourF(Quad(0x3527497e, 0x377c7d0a, 0x948347ae, 0xab92660e),
                  Quad(0x00000000, 0x00000000, 0x00000000, 0x00000000),
                  Quad(0x698098d8, 0x8b44f7af, 0xffff5bb1, 0x895cd7be)) ==
            Quad(0xcc912f27, 0xb9ede40c, 0xae23894d, 0x6945a3d5)
    ensures FourF(Quad(0xcc912f27, 0xb9ede40c, 0xae23894d, 0x6945a3d5),
                  Quad(0x00000000, 0x00000000, 0x00000280, 0x00000000),
                  Quad(0x6b901122, 0xfd987193, 0xa679438e, 0x49b40821)) ==
            Quad(0xdb4ff71c, 0x58b12eab, 0x04396a39, 0x9b6b4960)
  {
  }

  lemma DigitsBackRound2()
    ensures FourG(Quad(0xdb4ff71c, 0x58b12eab, 0x04396a39, 0x9b6b4960),
                  Quad(0x32313039, 0x00000000, 0x00000000, 0x38373635),
                  Quad(0xf61e2562, 0xc040b340, 0x265e5a51, 0xe9b6c7aa)) ==
            Quad(0x52c00cae, 0x50f8de8c, 0xa476af6f, 0xaad2a216)
    ensures FourG(Quad(0x52c00cae, 0x50f8de8c, 0xa476af6f, 0xaad2a216),
                  Quad(0x00000000, 0x00000000, 0x00000000, 0x00000080),
                  Quad(0xd62f105d, 0x02441453, 0xd8a1e681, 0xe7d3fbc8)) ==
            Quad(0x0d6e6d91, 0x043cb080, 0xd5b7a850, 0x17d64195)
    ensures FourG(Quad(0x0d6e6d91, 0x043cb080, 0xd5b7a850, 0x17d64195),
                  Quad(0x00000000, 0x00000280, 0x30393837, 0x00000000),
                  Quad(0x21e1cde6, 0xc33707d6, 0xf4d50d87, 0x455a14ed)) ==
            Quad(0x74f9377e, 0xcb00b96e, 0xe775c8ca, 0x01f2addd)
    ensures FourG(Quad(0x74f9377e, 0xcb00b96e, 0xe775c8ca, 0x01f2addd),
                  Quad(0x00000000, 0x36353433, 0x00000000, 0x00000000),
                  Quad(0xa9e3e905, 0xfcefa3f8, 0x676f02d9, 0x8d2a4c8a)) ==
            Quad(0x8761f38e, 0x67092c33, 0x061bc867, 0x7a516116)
  {
  }

  lemma DigitsBackRound3()
    ensures FourH(Quad(0x8761f38e, 0x67092c33, 0x061bc867, 0x7a516116),
                  Quad(0x00000000, 0x00000000, 0x00000000, 0x00000280),
                  Quad(0xfffa3942, 0x8771f681, 0x6d9d6122, 0xfde5380c)) ==
            Quad(0x91044d5d, 0x2ee1e3fe, 0xc0175fa8, 0x610954eb)
    ensures FourH(Quad(0x91044d5d, 0x2ee1e3fe, 0xc0175fa8, 0x610954eb),
                  Quad(0x32313039, 0x00000080, 0x00000000, 0x00000000),
                  Quad(0xa4beea44, 0x4bdecfa9, 0xf6bb4b60, 0xbebfbc70)) ==
            Quad(0xae26ed7d, 0xdbd1bff6, 0xff4a94dc, 0x71d8ecea)
    ensures FourH(Quad(0xae26ed7d, 0xdbd1bff6, 0xff4a94dc, 0x71d8ecea),
                  Quad(0x00000000, 0x38373635, 0x30393837, 0x00000000),
                  Quad(0x289b7ec6, 0xeaa127fa, 0xd4ef3085, 0x04881d05)) ==
            Quad(0x9c350028, 0x56b3692f, 0xfacaaf06, 0x97e5da92)
    ensures FourH(Quad(0x9c350028, 0x56b3692f, 0xfacaaf06, 0x97e5da92),
                  Quad(0x00000000, 0x00000000, 0x00000000, 0x36353433),
                  Quad(0xd9d4d039, 0xe6db99e5, 0x1fa27cf8, 0xc4ac5665)) ==
            Quad(0x71123afa, 0x1df7010a, 0xe6a8a386, 0xdc9c8ddb)
  {
  }

  lemma DigitsBackRound4()
    ensures FourI(Quad(0x71123afa, 0x1df7010a, 0xe6a8a386, 0xdc9c8ddb),
                  Quad(0x38373635, 0x00000000, 0x00000280, 0x00000000),
                  Quad(0xf4292244, 0x432aff97, 0xab9423a7, 0xfc93a039)) ==
            Quad(0xd29007e7, 0xc8797828, 0xd3248109, 0x7241a77e)
    ensures FourI(Quad(0xd29007e7, 0xc8797828, 0xd3248109, 0x7241a77e),
                  Quad(0x00000000, 0x30393837, 0x00000000, 0x32313039),
                  Quad(0x655b59c3, 0x8f0ccc92, 0xffeff47d, 0x85845dd1)) ==
            Quad(0x7a504abd, 0x9b31b114, 0xa290d6ce, 0x211cc65d)
    ensures FourI(Quad(0x7a504abd, 0x9b31b114, 0xa290d6ce, 0x211cc65d),
                  Quad(0x00000000, 0x00000000, 0x00000000, 0x00000000),
                  Quad(0x6fa87e4f, 0xfe2ce6e0, 0xa3014314, 0x4e0811a1)) ==
            Quad(0x723fd22d, 0x4dc4f33d, 0x3d79cf74, 0xd21d6a3b)
    ensures FourI(Quad(0x723fd22d, 0x4dc4f33d, 0x3d79cf74, 0xd21d6a3b),
                  Quad(0x00000080, 0x00000000, 0x36353433, 0x00000000),
                  Quad(0xf7537e82, 0xbd3af235, 0x2ad7d2bb, 0xeb86d391)) ==
            Quad(0xda67616b, 0xb12906a0, 0x44ec5a13, 0xc9e47a04)
  {
  }

  lemma DigitsBackAfter(x: Block)
    requires IsDigitsBack(x)
    ensures Steps(64, Quad(0xc88d8bec, 0xa4a0dc8b, 0xe9edef99, 0xb0d18d1d), x) ==
            Quad(0xda67616b, 0xb12906a0, 0x44ec5a13, 0xc9e47a04)
  {
    hide CONSTANTS;
    hide ConstantsFrom;
    hide FourF;
    hide FourG;
    hide FourH;
    hide FourI;
    hide Steps;
    var init := Quad(0xc88d8bec, 0xa4a0dc8b, 0xe9edef99, 0xb0d18d1d);
    StepsOfNothing(init, x);
    Constants1();
    DigitsBackRound1();
    RoundIs(0, init, x, Quad(0xc88d8bec, 0xa4a0dc8b, 0xe9edef99, 0xb0d18d1d),
            Quad(0x353af7cf, 0x45e88f2c, 0x63356537, 0x3a4f735a),
            Quad(0x3527497e, 0x377c7d0a, 0x948347ae, 0xab92660e),
            Quad(0xcc912f27, 0xb9ede40c, 0xae23894d, 0x6945a3d5));
    Constants2();
    DigitsBackRound2();
    RoundIs(16, init, x, Quad(0xdb4ff71c, 0x58b12eab, 0x04396a39, 0x9b6b4960),
            Quad(0x52c00cae, 0x50f8de8c, 0xa476af6f, 0xaad2a216),
            Quad(0x0d6e6d91, 0x043cb080, 0xd5b7a850, 0x17d64195),
            Quad(0x74f9377e, 0xcb00b96e, 0xe775c8ca, 0x01f2addd));
    Constants3();
    DigitsBackRound3();
    RoundIs(32, init, x, Quad(0x8761f38e, 0x67092c33, 0x061bc867, 0x7a516116),
            Quad(0x91044d5d, 0x2ee1e3fe, 0xc0175fa8, 0x610954eb),
            Quad(0xae26ed7d, 0xdbd1bff6, 0xff4a94dc, 0x71d8ecea),
            Quad(0x9c350028, 0x56b3692f, 0xfacaaf06, 0x97e5da92));
    Constants4();
    DigitsBackRound4();
    RoundIs(48, init, x, Quad(0x71123afa, 0x1df7010a, 0xe6a8a386, 0xdc9c8ddb),
            Quad(0xd29007e7, 0xc8797828, 0xd3248109, 0x7241a77e),
            Quad(0x7a504abd, 0x9b31b114, 0xa290d6ce, 0x211cc65d),
            Quad(0x723fd22d, 0x4dc4f33d, 0x3d79cf74, 0xd21d6a3b));
  }

  lemma DigitsFrontBytes()
    ensures ToWord(49, 50, 51, 52) == 0x34333231
    ensures ToWord(51, 52, 53, 54) == 0x36353433
    ensures ToWord(53, 54, 55, 56) == 0x38373635
    ensures ToWord(55, 56, 57, 48) == 0x30393837
    ensures ToWord(57, 48, 49, 50) == 0x32313039
  {
  }

  lemma DigitsFrontWords1(data: seq<Byte>)
    requires data == Pad(Digits())
    ensures |data| == 128
    ensures var x := BlockAt(data, 0);
            x[0] == 0x34333231 && x[1] == 0x38373635 && x[2] == 0x32313039 && x[3] == 0x36353433
  {
    hide ToWord;
    hide WordAt;
    hide LittleEndian;
    hide Pow256;
    FillValue(80);
    PadLength(Digits());
    NoBytes();
    DigitsFrontBytes();
    WordOfPad(Digits(), 0, 49, 50, 51, 52);
    WordOfPad(Digits(), 4, 53, 54, 55, 56);
    WordOfPad(Digits(), 8, 57, 48, 49, 50);
    WordOfPad(Digits(), 12, 51, 52, 53, 54);
  }

  lemma DigitsFrontWords2(data: seq<Byte>)
    requires data == Pad(Digits())
    ensures |data| == 128
    ensures var x := BlockAt(data, 0);
            x[4] == 0x30393837 && x[5] == 0x34333231 && x[6] == 0x38373635 && x[7] == 0x32313039
  {
    hide ToWord;
    hide WordAt;
    hide LittleEndian;
    hide Pow256;
    FillValue(80);
    PadLength(Digits());
    NoBytes();
    DigitsFrontBytes();
    WordOfPad(Digits(), 16, 55, 56, 57, 48);
    WordOfPad(Digits(), 20, 49, 50, 51, 52);
    WordOfPad(Digits(), 24, 53, 54, 55, 56);
    WordOfPad(Digits(), 28, 57, 48, 49, 50);
  }

  lemma DigitsFrontWords3(data: seq<Byte>)
    requires data == Pad(Digits())
    ensures |data| == 128
    ensures var x := BlockAt(data, 0);
            x[8] == 0x36353433 && x[9] == 0x30393837 && x[10] == 0x34333231 && x[11] == 0x38373635
  {
    hide ToWord;
    hide WordAt;
    hide LittleEndian;
    hide Pow256;
    FillValue(80);
    PadLength(Digits());
    NoBytes();
    DigitsFrontBytes();
    WordOfPad(Digits(), 32, 51, 52, 53, 54);
    WordOfPad(Digits(), 36, 55, 56, 57, 48);
    WordOfPad(Digits(), 40, 49, 50, 51, 52);
    WordOfPad(Digits(), 44, 53, 54, 55, 56);
  }

  lemma DigitsFrontWords4(data: seq<Byte>)
    requires data == Pad(Digits())
    ensures |data| == 128
    ensures var x := BlockAt(data, 0);
            x[12] == 0x32313039 && x[13] == 0x36353433 && x[14] == 0x30393837 && x[15] == 0x34333231
  {
    hide ToWord;
    hide WordAt;
    hide LittleEndian;
    hide Pow256;
    FillValue(80);
    PadLength(Digits());
    NoBytes();
    DigitsFrontBytes();
    WordOfPad(Digits(), 48, 57, 48, 49, 50);
    WordOfPad(Digits(), 52, 51, 52, 53, 54);
    WordOfPad(Digits(), 56, 55, 56, 57, 48);
    WordOfPad(Digits(), 60, 49, 50, 51, 52);
  }

  lemma DigitsFrontWords(data: seq<Byte>)
    requires data == Pad(Digits())
    ensures |data| == 128 && IsDigitsFront(BlockAt(data, 0))
  {
    hide BlockAt;
    hide Pad;
    DigitsFrontWords1(data);
    DigitsFrontWords2(data);
    DigitsFrontWords3(data);
    DigitsFrontWords4(data);
  }

  lemma DigitsBackBytes()
    ensures ToWord(51, 52, 53, 54) == 0x36353433
    ensures ToWord(53, 54, 55, 56) == 0x38373635
    ensures ToWord(55, 56, 57, 48) == 0x30393837
    ensures ToWord(57, 48, 49, 50) == 0x32313039
    ensures ToWord(128, 0, 0, 0) == 0x00000080
    ensures ToWord(128, 2, 0, 0) == 0x00000280
  {
  }

  lemma DigitsBackWords1(data: seq<Byte>)
    requires data == Pad(Digits())
    ensures |data| == 128
    ensures var x := BlockAt(data, 64);
            x[0] == 0x38373635 && x[1] == 0x32313039 && x[2] == 0x36353433 && x[3] == 0x30393837
  {
    hide ToWord;
    hide WordAt;
    hide LittleEndian;
    hide Pow256;
    FillValue(80);
    PadLength(Digits());
    NoBytes();
    DigitsBackBytes();
    WordOfPad(Digits(), 64, 53, 54, 55, 56);
    WordOfPad(Digits(), 68, 57, 48, 49, 50);
    WordOfPad(Digits(), 72, 51, 52, 53, 54);
    WordOfPad(Digits(), 76, 55, 56, 57, 48);
  }

  lemma DigitsBackWords2(data: seq<Byte>)
    requires data == Pad(Digits())
    ensures |data| == 128
    ensures var x := BlockAt(data, 64);
            x[4] == 0x00000080 && x[5] == 0x00000000 && x[6] == 0x00000000 && x[7] == 0x00000000
  {
    hide ToWord;
    hide WordAt;
    hide LittleEndian;
    hide Pow256;
    FillValue(80);
    PadLength(Digits());
    NoBytes();
    DigitsBackBytes();
    WordOfPad(Digits(), 80, 128, 0, 0, 0);
    WordOfPad(Digits(), 84, 0, 0, 0, 0);
    WordOfPad(Digits(), 88, 0, 0, 0, 0);
    WordOfPad(Digits(), 92, 0, 0, 0, 0);
  }

  lemma DigitsBackWords3(data: seq<Byte>)
    requires data == Pad(Digits())
    ensures |data| == 128
    ensures var x := BlockAt(data, 64);
            x[8] == 0x00000000 && x[9] == 0x00000000 && x[10] == 0x00000000 && x[11] == 0x00000000
  {
    hide ToWord;
    hide WordAt;
    hide LittleEndian;
    hide Pow256;
    FillValue(80);
    PadLength(Digits());
    NoBytes();
    DigitsBackBytes();
    WordOfPad(Digits(), 96, 0, 0, 0, 0);
    WordOfPad(Digits(), 100, 0, 0, 0, 0);
    WordOfPad(Digits(), 104, 0, 0, 0, 0);
    WordOfPad(Digits(), 108, 0, 0, 0, 0);
  }

  lemma DigitsBackWords4(data: seq<Byte>)
    requires data == Pad(Digits())
    ensures |data| == 128
    ensures var x := BlockAt(data, 64);
            x[12] == 0x00000000 && x[13] == 0x00000000 && x[14] == 0x00000280 && x[15] == 0x00000000
  {
    hide ToWord;
    hide WordAt;
    hide LittleEndian;
    hide Pow256;
    FillValue(80);
    PadLength(Digits());
    NoBytes();
    DigitsBackBytes();
    WordOfPad(Digits(), 112, 0, 0, 0, 0);
    WordOfPad(Digits(), 116, 0, 0, 0, 0);
    WordOfPad(Digits(), 120, 128, 2, 0, 0);
    WordOfPad(Digits(), 124, 0, 0, 0, 0);
  }

  lemma DigitsBackWords(data: seq<Byte>)
    requires data == Pad(Digits())
    ensures |data| == 128 && IsDigitsBack(BlockAt(data, 64))
  {
    hide BlockAt;
    hide Pad;
    DigitsBackWords1(data);
    DigitsBackWords2(data);
    DigitsBackWords3(data);
    DigitsBackWords4(data);
  }

  lemma DigitsAnswer()
    ensures Rfc1321(Digits()) == "57edf4a22be3c955ac49da2e2107b67a"
  {
    hide Pad;
    hide BlockAt;
    hide Steps;
    hide RfcDigest;
    var data := Pad(Digits());
    DigitsFrontWords(data);
    DigitsFrontAfter(BlockAt(data, 0));
    FirstBlock(data, 0, Quad(0x67452301, 0xefcdab89, 0x98badcfe, 0x10325476));
    DigitsBackWords(data);
    DigitsBackAfter(BlockAt(data, 64));
    LastBlock(data, 64, Quad(0xc88d8bec, 0xa4a0dc8b, 0xe9edef99, 0xb0d18d1d));
    HexOfDigits();
  }

  lemma HexOfDigits()
    ensures Hex(Quad(0xa2f4ed57, 0x55c9e32b, 0x2eda49ac, 0x7ab60721)) == "57edf4a22be3c955ac49da2e2107b67a"
  {
  }
}
