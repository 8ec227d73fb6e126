/** MD5 as md5.cpp computes it, against the algorithm of RFC 1321. */
module Md5 {
  type Word = bv32

  datatype Quad<+T> = Quad(a: T, b: T, c: T, d: T)

  type Registers = Quad<Word>

  // ----- the tables and functions of md5.cpp -----

  const CONSTANTS_1: seq<Word> := [
    0xd76aa478, 0xe8c7b756, 0x242070db, 0xc1bdceee, 0xf57c0faf, 0x4787c62a, 0xa8304613, 0xfd469501,
    0x698098d8, 0x8b44f7af, 0xffff5bb1, 0x895cd7be, 0x6b901122, 0xfd987193, 0xa679438e, 0x49b40821]

  const CONSTANTS_2: seq<Word> := [
    0xf61e2562, 0xc040b340, 0x265e5a51, 0xe9b6c7aa, 0xd62f105d, 0x02441453, 0xd8a1e681, 0xe7d3fbc8,
    0x21e1cde6, 0xc33707d6, 0xf4d50d87, 0x455a14ed, 0xa9e3e905, 0xfcefa3f8, 0x676f02d9, 0x8d2a4c8a]

  const CONSTANTS_3: seq<Word> := [
    0xfffa3942, 0x8771f681, 0x6d9d6122, 0xfde5380c, 0xa4beea44, 0x4bdecfa9, 0xf6bb4b60, 0xbebfbc70,
    0x289b7ec6, 0xeaa127fa, 0xd4ef3085, 0x04881d05, 0xd9d4d039, 0xe6db99e5, 0x1fa27cf8, 0xc4ac5665]

  const CONSTANTS_4: seq<Word> := [
    0xf4292244, 0x432aff97, 0xab9423a7, 0xfc93a039, 0x655b59c3, 0x8f0ccc92, 0xffeff47d, 0x85845dd1,
    0x6fa87e4f, 0xfe2ce6e0, 0xa3014314, 0x4e0811a1, 0xf7537e82, 0xbd3af235, 0x2ad7d2bb, 0xeb86d391]

  const CONSTANTS: seq<Word> := CONSTANTS_1 + CONSTANTS_2 + CONSTANTS_3 + CONSTANTS_4

  /** The shifts of one round: four amounts, four times over. */
  function Row(quad: seq<Word>): (row: seq<Word>)
    requires |quad| == 4
    ensures |row| == 16
  {
    quad + quad + quad + quad
  }

  const SHIFTS: seq<Word> := Row([7, 12, 17, 22]) + Row([5, 9, 14, 20]) + Row([4, 11, 16, 23]) + Row([6, 10, 15, 21])

  function LeftRotate(value: Word, shift: Word): Word
    requires shift <= 32
  {
    (value << shift) | (value >> (32 - shift))
  }

  function F(x: Word, y: Word, z: Word): Word {
    (x & y) | (!x & z)
  }

  function G(x: Word, y: Word, z: Word): Word {
    (x & z) | (y & !z)
  }

  function H(x: Word, y: Word, z: Word): Word {
    x ^ y ^ z
  }

  function I(x: Word, y: Word, z: Word): Word {
    y ^ (x | !z)
  }

  lemma RotateBack(v: Word, s: Word)
    requires 0 < s < 32
    ensures LeftRotate(LeftRotate(v, s), 32 - s) == v
  {
  }

  lemma RowAt(quad: seq<Word>, j: nat)
    requires |quad| == 4 && j < 16
    ensures Row(quad)[j] == quad[j % 4]
  {
    var k := j % 4;
    assert j == k || j == 4 + k || j == 8 + k || j == 12 + k;
  }

  /** The four shift amounts of the round that step `i` belongs to. */
  function RoundShifts(i: nat): (quad: seq<Word>)
    requires i < 64
    ensures |quad| == 4 && forall k :: 0 <= k < 4 ==> 0 < quad[k] < 32
  {
    if i < 16 then [7, 12, 17, 22] else if i < 32 then [5, 9, 14, 20]
    else if i < 48 then [4, 11, 16, 23] else [6, 10, 15, 21]
  }

  lemma {:induction false} ShiftsAreRfc(i: nat)
    requires i < 64
    ensures |SHIFTS| == 64 && SHIFTS[i] == RoundShifts(i)[i % 4] && 0 < SHIFTS[i] < 32
  {
    hide Row;
    RowAt(RoundShifts(i), i % 16);
    assert i % 16 % 4 == i % 4;
    assert SHIFTS[i] == Row(RoundShifts(i))[i % 16];
  }

  // ----- one step of the inner loop -----

  /** The round function that step `i` uses. */
  function Mix(i: nat, x: Word, y: Word, z: Word): Word {
    if i < 16 then F(x, y, z) else if i < 32 then G(x, y, z) else if i < 48 then H(x, y, z) else I(x, y, z)
  }

  /** The word of the block that step `i` adds. */
  function WordIndex(i: nat): (g: nat)
    requires i < 64
    ensures g < 16
  {
    if i < 16 then i else if i < 32 then (5 * i + 1) % 16 else if i < 48 then (3 * i + 5) % 16 else (7 * i) % 16
  }

  type Block = x: seq<Word> | |x| == 16 witness seq(16, _ => 0)

  // 32-bit additions, named so that proofs can treat them as units.

  function Plus(a: Word, b: Word): Word {
    a + b
  }

  function Sum(a: Word, b: Word, c: Word, d: Word): Word {
    a + b + c + d
  }

  /** The loop body: the registers move on by one place. */
  function Step(i: nat, r: Registers, x: Block): Registers
    requires i < 64
  {
    ShiftsAreRfc(i);
    var f := Sum(Mix(i, r.b, r.c, r.d), r.a, CONSTANTS[i], x[WordIndex(i)]);
    Quad(r.d, Plus(r.b, LeftRotate(f, SHIFTS[i])), r.b, r.c)
  }

  function Steps(n: nat, r: Registers, x: Block): Registers
    requires n <= 64
  {
    if n == 0 then r else Step(n - 1, Steps(n - 1, r, x), x)
  }

  function Add(r: Registers, s: Registers): Registers {
    Quad(r.a + s.a, r.b + s.b, r.c + s.c, r.d + s.d)
  }

  // ----- section 3.4 of RFC 1321 -----

  /** The order in which a round uses the words: it starts somewhere and goes on by a fixed increment. */
  function RfcWord(i: nat): (k: nat)
    requires i < 64
    ensures k < 16
  {
    if i == 0 || i == 48 then 0 else if i == 16 then 1 else if i == 32 then 5
    else (RfcWord(i - 1) + (if i < 16 then 1 else if i < 32 then 5 else if i < 48 then 3 else 7)) % 16
  }

  /** [abcd k s i]: the new value of the register named first. */
  function Operation(i: nat, a: Word, b: Word, c: Word, d: Word, x: Block): Word
    requires i < 64
  {
    Plus(b, LeftRotate(Sum(a, Mix(i, b, c, d), x[RfcWord(i)], CONSTANTS[i]), RoundShifts(i)[i % 4]))
  }

  /** The operations of a round name their registers ABCD, DABC, CDAB, BCDA in turn. */
  function NewValue(turn: nat, i: nat, r: Registers, x: Block): Word
    requires i < 64
  {
    if turn == 0 then Operation(i, r.a, r.b, r.c, r.d, x)
    else if turn == 1 then Operation(i, r.d, r.a, r.b, r.c, x)
    else if turn == 2 then Operation(i, r.c, r.d, r.a, r.b, x)
    else Operation(i, r.b, r.c, r.d, r.a, x)
  }

  function Named(turn: nat, i: nat, r: Registers, x: Block): Registers
    requires i < 64
  {
    Assign(turn, r, NewValue(turn, i, r, x))
  }

  function RfcStep(i: nat, r: Registers, x: Block): Registers
    requires i < 64
  {
    Named(i % 4, i, r, x)
  }

  function RfcSteps(n: nat, r: Registers, x: Block): Registers
    requires n <= 64
  {
    if n == 0 then r else RfcStep(n - 1, RfcSteps(n - 1, r, x), x)
  }

  // ----- the loop refines the named operations -----

  /** The named registers as the loop holds them at the given turn. */
  function Rotated<T>(turn: nat, r: Quad<T>): Quad<T> {
    if turn == 0 then r
    else if turn == 1 then Quad(r.d, r.a, r.b, r.c)
    else if turn == 2 then Quad(r.c, r.d, r.a, r.b)
    else Quad(r.b, r.c, r.d, r.a)
  }

  /** The register whose turn it is gets a new value. */
  function Assign<T>(turn: nat, r: Quad<T>, v: T): Quad<T> {
    if turn == 0 then r.(a := v) else if turn == 1 then r.(d := v) else if turn == 2 then r.(c := v) else r.(b := v)
  }

  /** Moving every register on by one place turns assigning the first into assigning the next in turn. */
  lemma MoveOn<T>(turn: nat, r: Quad<T>, v: T)
    requires turn < 4
    ensures var h := Rotated(turn, r);
            Quad(h.d, v, h.b, h.c) == Rotated(if turn == 3 then 0 else turn + 1, Assign(turn, r, v))
  {
  }

  lemma {:induction false} WordOrder(i: nat)
    requires i < 64
    ensures RfcWord(i) == WordIndex(i)
  {
    if i != 0 && i != 16 && i != 32 && i != 48 {
      WordOrder(i - 1);
      if i < 16 {
        ModuloSum(i - 1, 1);
      } else if i < 32 {
        ModuloSum(5 * (i - 1) + 1, 5);
      } else if i < 48 {
        ModuloSum(3 * (i - 1) + 5, 3);
      } else {
        ModuloSum(7 * (i - 1), 7);
      }
    }
  }

  lemma ModuloSum(a: nat, b: nat)
    ensures (a % 16 + b) % 16 == (a + b) % 16
  {
    assert a == 16 * (a / 16) + a % 16;
  }

  lemma AddReorders(p: Word, q: Word, r: Word, s: Word)
    ensures Sum(p, q, r, s) == Sum(q, p, s, r)
  {
    assert p + q + r + s == q + p + s + r;
  }

  lemma OperationIs(i: nat, r: Registers, x: Block)
    requires i < 64
    ensures Step(i, r, x) == Quad(r.d, Operation(i, r.a, r.b, r.c, r.d, x), r.b, r.c)
  {
    hide Mix;
    hide LeftRotate;
    hide RoundShifts;
    hide Plus;
    hide Sum;
    hide RfcWord;
    hide WordIndex;
    ShiftsAreRfc(i);
    WordOrder(i);
    AddReorders(Mix(i, r.b, r.c, r.d), r.a, CONSTANTS[i], x[WordIndex(i)]);
  }

  lemma NewValueIs(turn: nat, i: nat, r: Registers, x: Block)
    requires turn < 4 && i < 64
    ensures var h := Rotated(turn, r);
            NewValue(turn, i, r, x) == Operation(i, h.a, h.b, h.c, h.d, x)
  {
    hide Operation;
  }

  lemma StepRefines(turn: nat, i: nat, r: Registers, x: Block)
    requires turn < 4 && i < 64
    ensures Step(i, Rotated(turn, r), x) == Rotated(if turn == 3 then 0 else turn + 1, Named(turn, i, r, x))
  {
    hide Step;
    hide Operation;
    hide NewValue;
    hide Rotated;
    hide Assign;
    OperationIs(i, Rotated(turn, r), x);
    NewValueIs(turn, i, r, x);
    MoveOn(turn, r, NewValue(turn, i, r, x));
  }

  /** After any number of steps the loop's registers are the named ones, rotated; after 64 they are the same. */
  lemma {:induction false} LoopRefinesRfc(n: nat, r: Registers, x: Block)
    requires n <= 64
    ensures Steps(n, r, x) == Rotated(n % 4, RfcSteps(n, r, x))
    ensures n == 64 ==> Steps(n, r, x) == RfcSteps(n, r, x)
  {
    hide Step;
    hide Named;
    if n > 0 {
      LoopRefinesRfc(n - 1, r, x);
      StepRefines((n - 1) % 4, n - 1, RfcSteps(n - 1, r, x), x);
      assert n % 4 == if (n - 1) % 4 == 3 then 0 else (n - 1) % 4 + 1;
    }
  }

  // ----- the 64 steps are a bijection -----

  function Minus(a: Word, b: Word): Word {
    a - b
  }

  /** The second summand of `Sum(m, a, k, w)` from the sum. */
  function Unsum(sum: Word, m: Word, k: Word, w: Word): Word {
    sum - m - k - w
  }

  /** The registers before step `i`, from those after it. */
  function Unstep(i: nat, r: Registers, x: Block): Registers
    requires i < 64
  {
    ShiftsAreRfc(i);
    var f := LeftRotate(Minus(r.b, r.c), 32 - SHIFTS[i]);
    Quad(Unsum(f, Mix(i, r.c, r.d, r.a), CONSTANTS[i], x[WordIndex(i)]), r.c, r.d, r.a)
  }

  function Unsteps(n: nat, r: Registers, x: Block): Registers
    requires n <= 64
  {
    if n == 0 then r else Unsteps(n - 1, Unstep(n - 1, r, x), x)
  }

  lemma PlusCancels(a: Word, b: Word)
    ensures Minus(Plus(a, b), a) == b && Plus(a, Minus(b, a)) == b
  {
    assert Minus(a + b, a) == b && Plus(a, b - a) == b;
  }

  lemma SumCancels(m: Word, a: Word, k: Word, w: Word)
    ensures Unsum(Sum(m, a, k, w), m, k, w) == a && Sum(m, Unsum(a, m, k, w), k, w) == a
  {
    assert Unsum(m + a + k + w, m, k, w) == a;
    assert Sum(m, a - m - k - w, k, w) == a;
  }

  lemma ShiftComplement(s: Word)
    requires 0 < s < 32
    ensures 0 < 32 - s < 32 && 32 - (32 - s) == s
  {
  }

  lemma {:induction false} StepInverse(i: nat, r: Registers, x: Block)
    requires i < 64
    ensures Unstep(i, Step(i, r, x), x) == r && Step(i, Unstep(i, r, x), x) == r
  {
    hide Mix;
    hide LeftRotate;
    hide Plus;
    hide Minus;
    hide Sum;
    hide Unsum;
    hide WordIndex;
    ShiftsAreRfc(i);
    var s, k, w := SHIFTS[i], CONSTANTS[i], x[WordIndex(i)];
    ShiftComplement(s);
    var m := Mix(i, r.b, r.c, r.d);
    var f := Sum(m, r.a, k, w);
    SumCancels(m, r.a, k, w);
    RotateBack(f, s);
    PlusCancels(r.b, LeftRotate(f, s));
    var m', g := Mix(i, r.c, r.d, r.a), Minus(r.b, r.c);
    SumCancels(m', LeftRotate(g, 32 - s), k, w);
    RotateBack(g, 32 - s);
    PlusCancels(r.c, r.b);
  }

  /** For a fixed block, the 64 steps before the feed-forward addition can be undone, and every register state
      is reached. */
  lemma {:induction false} StepsBijective(n: nat, r: Registers, x: Block)
    requires n <= 64
    ensures Unsteps(n, Steps(n, r, x), x) == r && Steps(n, Unsteps(n, r, x), x) == r
  {
    hide Step;
    hide Unstep;
    if n > 0 {
      StepInverse(n - 1, Steps(n - 1, r, x), x);
      StepsBijective(n - 1, r, x);
      StepsBijective(n - 1, Unstep(n - 1, r, x), x);
      StepInverse(n - 1, r, x);
    }
  }
}
