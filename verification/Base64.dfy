/** The base64 encoder of ntlm.cpp and auth.cpp and the decoder of tls_linux.cpp (section 4 of RFC 4648).
    Masks and shifts are written as divisions and remainders. */
module Base64 {
  import opened Text
  import opened Bytes

  const UPPER := "ABCDEFGHIJKLMNOPQRSTUVWXYZ"
  const LOWER := "abcdefghijklmnopqrstuvwxyz"
  const DIGITS := "0123456789"
  const ALPHABET := UPPER + LOWER + DIGITS + "+/"

  type Sextet = d: nat | d < 64

  function CharOf(d: Sextet): char {
    ALPHABET[d]
  }

  /** base64_value: -1 outside the alphabet */
  function ValueOf(c: char): (v: int)
    ensures v < 64
  {
    if 'A' <= c <= 'Z' then c as int - 'A' as int
    else if 'a' <= c <= 'z' then c as int - 'a' as int + 26
    else if '0' <= c <= '9' then c as int - '0' as int + 52
    else if c == '+' then 62
    else if c == '/' then 63
    else -1
  }

  /** The characters the decoder passes over. */
  predicate IsSkipped(c: char) {
    c == '=' || c == '\n' || c == '\r' || c == '\t' || c == ' '
  }

  lemma UpperAt(k: nat)
    requires k < 26
    ensures UPPER[k] as int == 'A' as int + k
  {
  }

  lemma LowerAt(k: nat)
    requires k < 26
    ensures LOWER[k] as int == 'a' as int + k
  {
  }

  lemma DigitAt(k: nat)
    requires k < 10
    ensures DIGITS[k] as int == '0' as int + k
  {
  }

  lemma AlphabetAt(d: Sextet)
    ensures CharOf(d) ==
            if d < 26 then UPPER[d]
            else if d < 52 then LOWER[d - 26]
            else if d < 62 then DIGITS[d - 52]
            else "+/"[d - 62]
  {
    assert |UPPER| == 26 && |LOWER| == 26 && |DIGITS| == 10;
    hide UPPER;
    hide LOWER;
    hide DIGITS;
  }

  lemma {:induction false} ValueOfChar(d: Sextet)
    ensures ValueOf(CharOf(d)) == d && !IsSkipped(CharOf(d))
  {
    AlphabetAt(d);
    hide CharOf;
    if d < 26 {
      UpperAt(d);
    } else if d < 52 {
      LowerAt(d - 26);
    } else if d < 62 {
      DigitAt(d - 52);
    }
  }

  // ----- encoding -----

  /** The four sextets of three bytes. */
  function Sextets(a: Byte, b: Byte, c: Byte): (r: seq<Sextet>)
    ensures |r| == 4
  {
    [a / 4, a % 4 * 16 + b / 16, b % 16 * 4 + c / 64, c % 64]
  }

  function Chars(sextets: seq<Sextet>): string {
    if sextets == [] then "" else [CharOf(sextets[0])] + Chars(sextets[1..])
  }

  /** The characters of one to three remaining bytes, with padding. */
  function EncodeTail(tail: seq<Byte>): string
    requires 0 < |tail| < 3
  {
    if |tail| == 1 then Chars(Sextets(tail[0], 0, 0)[..2]) + "==" else Chars(Sextets(tail[0], tail[1], 0)[..3]) + "="
  }

  function Encode(data: seq<Byte>): string {
    if data == [] then ""
    else if |data| < 3 then EncodeTail(data)
    else Chars(Sextets(data[0], data[1], data[2])) + Encode(data[3..])
  }

  // ----- decoding -----

  /** A shift by `n` bits. */
  function Pow2(n: nat): (p: nat)
    ensures p > 0
  {
    if n == 0 then 1 else 2 * Pow2(n - 1)
  }

  const INT_MODULUS := 0x1_0000_0000

  /** `val << 6` plus the next six bits. */
  function Shift(val: nat, d: Sextet): nat {
    val * 64 + d
  }

  /** The eight bits of `val` above the lowest `n`. */
  function ByteAt(val: nat, n: nat): Byte {
    val / Pow2(n) % 256
  }

  /** The decoder's loop from the accumulator `val`, kept modulo 2^32, and the bit counter `valb`;
      None when it meets a character outside the alphabet. */
  function DecodeFrom(input: string, val: nat, valb: int): Option<seq<Byte>> {
    if input == "" then Some([])
    else if IsSkipped(input[0]) then DecodeFrom(input[1..], val, valb)
    else if ValueOf(input[0]) < 0 then None
    else
      var val' := Shift(val, ValueOf(input[0])) % INT_MODULUS;
      if valb + 6 < 0 then DecodeFrom(input[1..], val', valb + 6)
      else Prepend(ByteAt(val', valb + 6), DecodeFrom(input[1..], val', valb - 2))
  }

  /** A byte put in front of what the rest decodes to. */
  function Prepend(b: Byte, more: Option<seq<Byte>>): Option<seq<Byte>> {
    if more.None? then None else Some([b] + more.value)
  }

  /** decode_base64: the bytes when all characters are legal and there is at least one byte. */
  function Decode(input: string): Option<seq<Byte>> {
    var r := DecodeFrom(input, 0, -8);
    if r.Some? && r.value != [] then r else None
  }

  // ----- the wrapping accumulator -----

  /** The same loop with an accumulator that never wraps. */
  function DecodeUnbounded(input: string, val: nat, valb: int): Option<seq<Byte>> {
    if input == "" then Some([])
    else if IsSkipped(input[0]) then DecodeUnbounded(input[1..], val, valb)
    else if ValueOf(input[0]) < 0 then None
    else
      var val' := Shift(val, ValueOf(input[0]));
      if valb + 6 < 0 then DecodeUnbounded(input[1..], val', valb + 6)
      else Prepend(ByteAt(val', valb + 6), DecodeUnbounded(input[1..], val', valb - 2))
  }

  /** The values the bit counter takes between characters. */
  predicate IsCounter(valb: int) {
    valb == -8 || valb == -6 || valb == -4 || valb == -2
  }

  lemma SmallPowers()
    ensures Pow2(0) == 1 && Pow2(2) == 4 && Pow2(4) == 16
  {
    assert Pow2(1) == 2 && Pow2(3) == 8;
  }

  /** Only the low twelve bits of the accumulator are ever read. */
  lemma LowBits(v: nat, w: nat, valb: int)
    requires IsCounter(valb) && valb + 6 >= 0 && v % 4096 == w % 4096
    ensures ByteAt(v, valb + 6) == ByteAt(w, valb + 6)
  {
    SmallPowers();
    hide Pow2;
    var p := Pow2(valb + 6);
    assert p == 1 || p == 4 || p == 16;
    LowBitsOf(v, p);
    LowBitsOf(w, p);
  }

  lemma LowBitsOf(v: nat, p: nat)
    requires p == 1 || p == 4 || p == 16
    ensures v / p % 256 == v % 4096 / p % 256
  {
    var q, r := v / 4096, v % 4096;
    assert v == q * 4096 + r;
    if p == 1 {
      MultiplesVanish(q * 16, r);
    } else if p == 4 {
      assert v / 4 == q * 1024 + r / 4;
      MultiplesVanish(q * 4, r / 4);
    } else {
      assert v / 16 == q * 256 + r / 16;
      MultiplesVanish(q, r / 16);
    }
  }

  lemma MultiplesVanish(q: nat, r: nat)
    ensures (q * 256 + r) % 256 == r % 256
  {
  }

  lemma NextLowBits(v: nat, w: nat, d: Sextet)
    requires v % 4096 == w % 4096
    ensures Shift(v, d) % INT_MODULUS % 4096 == Shift(w, d) % 4096
  {
    ModuloOfModulo(v * 64 + d);
    LowBitsOfShift(v, d);
    LowBitsOfShift(w, d);
  }

  lemma LowBitsOfShift(v: nat, d: Sextet)
    ensures (v * 64 + d) % 4096 == (v % 4096 * 64 + d) % 4096
  {
    var q, r := v / 4096, v % 4096;
    assert v * 64 + d == 4096 * (q * 64) + (r * 64 + d);
    AddMultiple(q * 64, r * 64 + d);
  }

  lemma AddMultiple(q: nat, r: nat)
    ensures (4096 * q + r) % 4096 == r % 4096
  {
  }

  lemma ModuloOfModulo(x: nat)
    ensures x % INT_MODULUS % 4096 == x % 4096
  {
    AddMultiple(x / INT_MODULUS * 1048576, x % INT_MODULUS);
  }

  /** The 32-bit accumulator gives the same bytes as an unbounded one, on every input. */
  lemma {:induction false} WrappingIsHarmless(input: string, v: nat, w: nat, valb: int)
    requires IsCounter(valb) && v % 4096 == w % 4096
    ensures DecodeFrom(input, v, valb) == DecodeUnbounded(input, w, valb)
  {
    hide ByteAt;
    hide Shift;
    hide Prepend;
    if input != "" && !IsSkipped(input[0]) && ValueOf(input[0]) >= 0 {
      var d: Sextet := ValueOf(input[0]);
      NextLowBits(v, w, d);
      var v', w' := Shift(v, d) % INT_MODULUS, Shift(w, d);
      if valb + 6 < 0 {
        WrappingIsHarmless(input[1..], v', w', valb + 6);
      } else {
        WrappingIsHarmless(input[1..], v', w', valb - 2);
        LowBits(v', w', valb);
      }
    } else if input != "" && IsSkipped(input[0]) {
      WrappingIsHarmless(input[1..], v, w, valb);
    }
  }

  // ----- round trip -----

  /** `input` without the characters the decoder passes over. */
  function Significant(input: string): string {
    if input == "" then ""
    else (if IsSkipped(input[0]) then "" else [input[0]]) + Significant(input[1..])
  }

  lemma {:induction false} SkippingIsHarmless(input: string, val: nat, valb: int)
    ensures DecodeUnbounded(input, val, valb) == DecodeUnbounded(Significant(input), val, valb)
  {
    hide ByteAt;
    hide Shift;
    hide Prepend;
    if input != "" {
      var c, rest := input[0], Significant(input[1..]);
      if IsSkipped(c) {
        assert "" + rest == rest;
        SkippingIsHarmless(input[1..], val, valb);
      } else {
        assert ([c] + rest)[0] == c && ([c] + rest)[1..] == rest;
        if ValueOf(c) >= 0 {
          SkippingIsHarmless(input[1..], Shift(val, ValueOf(c)), valb + 6);
          SkippingIsHarmless(input[1..], Shift(val, ValueOf(c)), valb - 2);
        }
      }
    }
  }

  /** One legal character of input. */
  lemma DecodeSextet(d: Sextet, rest: string, val: nat, valb: int)
    ensures DecodeUnbounded([CharOf(d)] + rest, val, valb) ==
            if valb + 6 < 0 then DecodeUnbounded(rest, Shift(val, d), valb + 6)
            else Prepend(ByteAt(Shift(val, d), valb + 6), DecodeUnbounded(rest, Shift(val, d), valb - 2))
  {
    hide ByteAt;
    hide Shift;
    hide Prepend;
    hide CharOf;
    hide ValueOf;
    ValueOfChar(d);
    assert ([CharOf(d)] + rest)[1..] == rest;
  }

  /** A byte above `n` low bits is read back. */
  lemma ReadByte(y: nat, b: Byte, n: nat, low: nat)
    requires n == 0 || n == 2 || n == 4
    requires low < Pow2(n)
    ensures ByteAt(Pow2(n) * (256 * y + b) + low, n) == b
  {
    SmallPowers();
    hide Pow2;
    var p, x := Pow2(n), 256 * y + b;
    assert p == 1 || p == 4 || p == 16;
    assert (p * x + low) / p == x;
    assert x % 256 == b;
  }

  /** Two shifts of a number whose pieces are known. */
  lemma TwoShifts(val: nat, d: Sextet, e: Sextet)
    ensures Shift(Shift(val, d), e) == 4096 * val + 64 * d + e
  {
  }

  /** The two sextets that a byte is spread over give it back, whatever the accumulator held before. */
  lemma FirstByte(val: nat, a: Byte, low: nat)
    requires low < 16
    ensures ByteAt(Shift(Shift(val, a / 4), a % 4 * 16 + low), 4) == a
  {
    var q, r := a / 4, a % 4;
    assert a == 4 * q + r;
    TwoShifts(val, q, r * 16 + low);
    SmallPowers();
    ReadByte(val, a, 4, low);
    hide ByteAt;
    hide Shift;
    assert 4096 * val + 64 * q + (r * 16 + low) == 16 * (256 * val + (4 * q + r)) + low;
  }

  lemma SecondByte(val: nat, high: nat, b: Byte, low: nat)
    requires high < 4 && low < 4
    ensures ByteAt(Shift(Shift(val, high * 16 + b / 16), b % 16 * 4 + low), 2) == b
  {
    var q, r := b / 16, b % 16;
    assert b == 16 * q + r;
    TwoShifts(val, high * 16 + q, r * 4 + low);
    SmallPowers();
    ReadByte(4 * val + high, b, 2, low);
    hide ByteAt;
    hide Shift;
    assert 4096 * val + 64 * (high * 16 + q) + (r * 4 + low) == 4 * (256 * (4 * val + high) + (16 * q + r)) + low;
  }

  lemma ThirdByte(val: nat, high: nat, c: Byte)
    requires high < 16
    ensures ByteAt(Shift(Shift(val, high * 4 + c / 64), c % 64), 0) == c
  {
    var q, r := c / 64, c % 64;
    assert c == 64 * q + r;
    TwoShifts(val, high * 4 + q, r);
    SmallPowers();
    ReadByte(16 * val + high, c, 0, 0);
    hide ByteAt;
    hide Shift;
    assert 4096 * val + 64 * (high * 4 + q) + r == 1 * (256 * (16 * val + high) + (64 * q + r)) + 0;
  }

  lemma CharsAppend(d: Sextet, rest: seq<Sextet>, tail: string)
    ensures Chars([d] + rest) + tail == [CharOf(d)] + (Chars(rest) + tail)
  {
    hide CharOf;
    assert ([d] + rest)[1..] == rest;
  }

  /** Characters in front of `rest`, one at a time. */
  lemma {:induction false} DecodeTwo(d0: Sextet, d1: Sextet, rest: string, val: nat)
    ensures var v1 := Shift(Shift(val, d0), d1);
            DecodeUnbounded(Chars([d0, d1]) + rest, val, -8) == Prepend(ByteAt(v1, 4), DecodeUnbounded(rest, v1, -4))
  {
    hide CharOf;
    hide DecodeUnbounded;
    hide ByteAt;
    hide Shift;
    hide Prepend;
    assert [d0, d1] == [d0] + [d1] && [d1] == [d1] + [];
    CharsAppend(d0, [d1], rest);
    CharsAppend(d1, [], rest);
    assert Chars([]) + rest == rest;
    DecodeSextet(d0, [CharOf(d1)] + rest, val, -8);
    DecodeSextet(d1, rest, Shift(val, d0), -2);
  }

  lemma DecodeOne(d: Sextet, rest: string, val: nat, valb: int)
    requires valb + 6 >= 0
    ensures var v := Shift(val, d);
            DecodeUnbounded(Chars([d]) + rest, val, valb)
              == Prepend(ByteAt(v, valb + 6), DecodeUnbounded(rest, v, valb - 2))
  {
    hide CharOf;
    hide DecodeUnbounded;
    hide ByteAt;
    hide Shift;
    hide Prepend;
    assert [d] == [d] + [];
    CharsAppend(d, [], rest);
    assert Chars([]) + rest == rest;
    DecodeSextet(d, rest, val, valb);
  }

  /** Two characters give the byte spread over them. */
  lemma DecodeFirst(a: Byte, low: nat, rest: string, val: nat)
    requires low < 16
    ensures var v := Shift(Shift(val, a / 4), a % 4 * 16 + low);
            DecodeUnbounded(Chars([a / 4, a % 4 * 16 + low]) + rest, val, -8)
              == Prepend(a, DecodeUnbounded(rest, v, -4))
  {
    hide DecodeUnbounded;
    hide ByteAt;
    hide Shift;
    hide Prepend;
    hide Chars;
    DecodeTwo(a / 4, a % 4 * 16 + low, rest, val);
    FirstByte(val, a, low);
  }

  /** A third character gives the byte whose high half was left in the accumulator. */
  lemma DecodeSecond(high: nat, b: Byte, low: nat, rest: string, val: nat)
    requires high < 4 && low < 4
    ensures var v := Shift(val, high * 16 + b / 16);
            DecodeUnbounded(Chars([b % 16 * 4 + low]) + rest, v, -4) ==
            Prepend(b, DecodeUnbounded(rest, Shift(v, b % 16 * 4 + low), -6))
  {
    hide DecodeUnbounded;
    hide ByteAt;
    hide Shift;
    hide Prepend;
    hide Chars;
    DecodeOne(b % 16 * 4 + low, rest, Shift(val, high * 16 + b / 16), -4);
    SecondByte(val, high, b, low);
  }

  lemma DecodeThird(high: nat, c: Byte, rest: string, val: nat)
    requires high < 16
    ensures var v := Shift(val, high * 4 + c / 64);
            DecodeUnbounded(Chars([c % 64]) + rest, v, -6) == Prepend(c, DecodeUnbounded(rest, Shift(v, c % 64), -8))
  {
    hide DecodeUnbounded;
    hide ByteAt;
    hide Shift;
    hide Prepend;
    hide Chars;
    DecodeOne(c % 64, rest, Shift(val, high * 4 + c / 64), -6);
    ThirdByte(val, high, c);
  }

  lemma {:induction false} CharsConcat(s: seq<Sextet>, t: seq<Sextet>, tail: string)
    ensures Chars(s + t) + tail == Chars(s) + (Chars(t) + tail)
  {
    hide CharOf;
    if s == [] {
      assert s + t == t;
    } else {
      assert (s + t)[0] == s[0] && (s + t)[1..] == s[1..] + t;
      CharsConcat(s[1..], t, tail);
      CharsAppend(s[0], s[1..] + t, tail);
      CharsAppend(s[0], s[1..], Chars(t) + tail);
      assert [s[0]] + s[1..] == s && [s[0]] + (s[1..] + t) == s + t;
    }
  }

  /** Four characters, three bytes. */
  lemma DecodeGroup(a: Byte, b: Byte, c: Byte, rest: string, val: nat) returns (after: nat)
    ensures DecodeUnbounded(Chars(Sextets(a, b, c)) + rest, val, -8) ==
            Prepend(a, Prepend(b, Prepend(c, DecodeUnbounded(rest, after, -8))))
  {
    hide DecodeUnbounded;
    hide Chars;
    hide Prepend;
    hide Shift;
    var d0, d1, d2, d3 := a / 4, a % 4 * 16 + b / 16, b % 16 * 4 + c / 64, c % 64;
    assert Sextets(a, b, c) == [d0, d1] + ([d2] + [d3]);
    CharsConcat([d0, d1], [d2] + [d3], rest);
    CharsConcat([d2], [d3], rest);
    DecodeFirst(a, b / 16, Chars([d2]) + (Chars([d3]) + rest), val);
    DecodeSecond(a % 4, b, c / 64, Chars([d3]) + rest, Shift(val, d0));
    DecodeThird(b % 16, c, rest, Shift(Shift(val, d0), d1));
    after := Shift(Shift(Shift(Shift(val, d0), d1), d2), d3);
  }

  /** Two characters, one byte. */
  lemma DecodeTailOne(a: Byte, val: nat)
    ensures DecodeUnbounded(Chars(Sextets(a, 0, 0)[..2]), val, -8) == Some([a])
  {
    hide Chars;
    hide Shift;
    assert Sextets(a, 0, 0)[..2] == [a / 4, a % 4 * 16 + 0];
    var v := Shift(Shift(val, a / 4), a % 4 * 16 + 0);
    assert DecodeUnbounded("", v, -4) == Some([]);
    hide DecodeUnbounded;
    var chars := Chars([a / 4, a % 4 * 16 + 0]);
    assert chars + "" == chars;
    DecodeFirst(a, 0, "", val);
    assert [a] + [] == [a];
  }

  /** Three characters, two bytes. */
  lemma DecodeTailTwo(a: Byte, b: Byte, val: nat)
    ensures DecodeUnbounded(Chars(Sextets(a, b, 0)[..3]), val, -8) == Some([a, b])
  {
    hide Chars;
    hide Shift;
    var d0, d1, d2 := a / 4, a % 4 * 16 + b / 16, b % 16 * 4 + 0;
    assert Sextets(a, b, 0)[..3] == [d0, d1] + [d2];
    var v := Shift(Shift(Shift(val, d0), d1), d2);
    assert DecodeUnbounded("", v, -6) == Some([]);
    hide DecodeUnbounded;
    var chars := Chars([d0, d1] + [d2]);
    assert chars + "" == chars;
    CharsConcat([d0, d1], [d2], "");
    DecodeFirst(a, b / 16, Chars([d2]) + "", val);
    DecodeSecond(a % 4, b, 0, "", Shift(val, d0));
    assert [a] + ([b] + []) == [a, b];
  }

  /** The encoding without its padding. */
  function Bare(data: seq<Byte>): string {
    if data == [] then ""
    else if |data| == 1 then Chars(Sextets(data[0], 0, 0)[..2])
    else if |data| == 2 then Chars(Sextets(data[0], data[1], 0)[..3])
    else Chars(Sextets(data[0], data[1], data[2])) + Bare(data[3..])
  }

  lemma {:induction false} DecodeBare(data: seq<Byte>, val: nat)
    ensures DecodeUnbounded(Bare(data), val, -8) == Some(data)
    decreases |data|
  {
    hide Sextets;
    hide Chars;
    hide Shift;
    hide ByteAt;
    if |data| == 1 {
      DecodeTailOne(data[0], val);
      assert data == [data[0]];
    } else if |data| == 2 {
      DecodeTailTwo(data[0], data[1], val);
      assert data == [data[0], data[1]];
    } else if data != [] {
      var after := DecodeGroup(data[0], data[1], data[2], Bare(data[3..]), val);
      DecodeBare(data[3..], after);
      assert [data[0]] + ([data[1]] + ([data[2]] + data[3..])) == data;
    }
  }

  lemma {:induction false} SignificantConcat(s: string, t: string)
    ensures Significant(s + t) == Significant(s) + Significant(t)
  {
    if s == "" {
      assert s + t == t && "" + Significant(t) == Significant(t);
    } else {
      assert (s + t)[1..] == s[1..] + t && (s + t)[0] == s[0];
      SignificantConcat(s[1..], t);
      var c := if IsSkipped(s[0]) then "" else [s[0]];
      assert c + (Significant(s[1..]) + Significant(t)) == (c + Significant(s[1..])) + Significant(t);
    }
  }

  lemma {:induction false} CharsAreSignificant(sextets: seq<Sextet>)
    ensures Significant(Chars(sextets)) == Chars(sextets)
  {
    if sextets != [] {
      ValueOfChar(sextets[0]);
      hide CharOf;
      var rest := Chars(sextets[1..]);
      CharsAreSignificant(sextets[1..]);
      assert ([CharOf(sextets[0])] + rest)[1..] == rest;
    }
  }

  lemma {:induction false} EncodingIsBare(data: seq<Byte>)
    ensures Significant(Encode(data)) == Bare(data)
    decreases |data|
  {
    hide Chars;
    hide Sextets;
    assert Significant("=") == "" && Significant("==") == "";
    if |data| == 1 {
      var chars := Chars(Sextets(data[0], 0, 0)[..2]);
      SignificantConcat(chars, "==");
      CharsAreSignificant(Sextets(data[0], 0, 0)[..2]);
      assert chars + "" == chars;
    } else if |data| == 2 {
      var chars := Chars(Sextets(data[0], data[1], 0)[..3]);
      SignificantConcat(chars, "=");
      CharsAreSignificant(Sextets(data[0], data[1], 0)[..3]);
      assert chars + "" == chars;
    } else if data != [] {
      EncodingIsBare(data[3..]);
      SignificantConcat(Chars(Sextets(data[0], data[1], data[2])), Encode(data[3..]));
      CharsAreSignificant(Sextets(data[0], data[1], data[2]));
    }
  }

  /** `text` is the encoding of `data` with white space inserted anywhere. */
  ghost predicate IsEncodingOf(text: string, data: seq<Byte>) {
    Significant(text) == Significant(Encode(data))
  }

  lemma InsertedSpaceIsInvisible(a: string, space: string, b: string)
    requires forall c :: c in space ==> IsSkipped(c)
    ensures Significant(a + space + b) == Significant(a + b)
  {
    SignificantConcat(a + space, b);
    SignificantConcat(a, space);
    SignificantConcat(a, b);
    NothingSignificant(space);
    assert Significant(a) + "" == Significant(a);
  }

  lemma {:induction false} NothingSignificant(space: string)
    requires forall c :: c in space ==> IsSkipped(c)
    ensures Significant(space) == ""
  {
    if space != "" {
      assert space[0] in space && forall c :: c in space[1..] ==> c in space;
      NothingSignificant(space[1..]);
    }
  }

  /** Decoding inverts encoding for every byte string, whatever white space has been inserted; only the empty
      one is reported as a failure. */
  lemma {:induction false} RoundTrip(text: string, data: seq<Byte>)
    requires IsEncodingOf(text, data)
    ensures DecodeFrom(text, 0, -8) == Some(data)
    ensures Decode(text) == if data == [] then None else Some(data)
  {
    WrappingIsHarmless(text, 0, 0, -8);
    SkippingIsHarmless(text, 0, -8);
    EncodingIsBare(data);
    DecodeBare(data, 0);
  }

  // ----- the code -----

  lemma EncodeUnfolds(data: seq<Byte>, before: string)
    requires |data| >= 3
    ensures before + Encode(data) == (before + Chars(Sextets(data[0], data[1], data[2]))) + Encode(data[3..])
  {
    hide Chars;
    hide Sextets;
    var group, more := Chars(Sextets(data[0], data[1], data[2])), Encode(data[3..]);
    assert before + (group + more) == (before + group) + more;
  }

  lemma EncodeShort(data: seq<Byte>)
    requires |data| < 3
    ensures Encode(data) == if data == [] then "" else EncodeTail(data)
  {
  }

  /** The four assignments to array_4. */
  method FillFour(three: array<Byte>, four: array<Sextet>)
    requires three.Length == 3 && four.Length == 4
    modifies four
    ensures four[..] == Sextets(three[0], three[1], three[2])
  {
    four[0] := three[0] / 4;
    four[1] := three[0] % 4 * 16 + three[1] / 16;
    four[2] := three[1] % 16 * 4 + three[2] / 64;
    four[3] := three[2] % 64;
  }

  /** The loop that appends the first `n` characters. */
  method AppendChars(ret: string, four: array<Sextet>, n: nat) returns (r: string)
    requires n <= four.Length
    ensures r == ret + Chars(four[..n])
  {
    r := ret;
    assert ret + Chars([]) == ret;
    for k := 0 to n
      invariant r == ret + Chars(four[..k])
    {
      CharsSnoc(four[..k], four[k]);
      assert four[..k + 1] == four[..k] + [four[k]];
      r := r + [CharOf(four[k])];
    }
  }

  lemma {:induction false} CharsSnoc(sextets: seq<Sextet>, d: Sextet)
    ensures Chars(sextets + [d]) == Chars(sextets) + [CharOf(d)]
  {
    hide CharOf;
    if sextets == [] {
      assert Chars([d]) == [CharOf(d)] + Chars([d][1..]);
    } else {
      assert (sextets + [d])[1..] == sextets[1..] + [d];
      CharsSnoc(sextets[1..], d);
    }
  }

  /** The part behind the encoder's main loop: the `i` bytes left in the buffer, filled up with zeros. */
  method EncodeRest(three: array<Byte>, four: array<Sextet>, i: nat, ret: string) returns (r: string)
    requires three.Length == 3 && four.Length == 4 && 0 < i < 3
    modifies three, four
    ensures r == ret + EncodeTail(old(three[..i]))
  {
    hide Chars;
    ghost var rest := three[..i];
    var j := i;
    while j < 3
      invariant i <= j <= 3 && three[..i] == rest && forall k :: i <= k < j ==> three[k] == 0
    {
      three[j] := 0;
      j := j + 1;
    }
    assert forall k :: 0 <= k < i ==> rest[k] == three[k];
    FillFour(three, four);
    hide Sextets;
    r := AppendChars(ret, four, i + 1);
    assert four[..i + 1] == four[..][..i + 1];
    ghost var chars := Chars(four[..i + 1]);
    var padding := i;
    assert ret + (chars + (if i == 1 then "==" else "=")) == r + if i == 1 then "==" else "=";
    while padding < 3
      invariant i <= padding <= 3
      invariant r == ret + chars + if padding == i then "" else if padding == i + 1 then "=" else "=="
    {
      padding := padding + 1;
      r := r + "=";
    }
  }

  /** The assignment to array_3[i]. */
  method Store(three: array<Byte>, i: nat, b: Byte)
    requires i < three.Length
    modifies three
    ensures three[..i + 1] == old(three[..i]) + [b]
  {
    three[i] := b;
  }

  /** What happens when the buffer of three bytes is full. */
  method EncodeGroup(three: array<Byte>, four: array<Sextet>, ret: string) returns (r: string)
    requires three.Length == 3 && four.Length == 4
    modifies four
    ensures r == ret + Chars(Sextets(three[0], three[1], three[2]))
  {
    hide Chars;
    hide Sextets;
    FillFour(three, four);
    r := AppendChars(ret, four, 4);
    assert four[..4] == four[..];
  }

  lemma ThreeBytes(three: array<Byte>, rest: seq<Byte>)
    requires three.Length == 3 && |rest| >= 3 && three[..3] == rest[..3]
    ensures three[0] == rest[0] && three[1] == rest[1] && three[2] == rest[2]
  {
    assert three[..3][0] == three[0] && three[..3][1] == three[1] && three[..3][2] == three[2];
  }

  /** base64_encode_impl, and base64_encode of auth.cpp */
  method EncodeBytes(buf: seq<Byte>) returns (ret: string)
    ensures ret == Encode(buf)
  {
    var three, four := new Byte[3](_ => 0), new Sextet[4](_ => 0);
    ret := "";
    var i, pos := 0, 0;
    ghost var rest := buf;
    assert "" + Encode(buf) == Encode(buf);
    hide Encode;
    hide Chars;
    hide Sextets;
    hide EncodeTail;
    while pos < |buf|
      invariant 0 <= i < 3 && i <= |rest| && |buf| - pos == |rest| - i
      invariant rest[i..] == buf[pos..] && three[..i] == rest[..i]
      invariant ret + Encode(rest) == Encode(buf)
    {
      NextInRest(buf, pos, rest, i);
      Store(three, i, buf[pos]);
      i, pos := i + 1, pos + 1;
      if i == 3 {
        ThreeBytes(three, rest);
        EncodeUnfolds(rest, ret);
        ret := EncodeGroup(three, four, ret);
        i, rest := 0, rest[3..];
      }
    }
    assert rest[..i] == rest;
    EncodeShort(rest);
    if i > 0 {
      ret := EncodeRest(three, four, i, ret);
    } else {
      assert ret + "" == ret;
    }
  }

  lemma NextInRest(buf: seq<Byte>, pos: nat, rest: seq<Byte>, i: nat)
    requires pos < |buf| && i <= |rest| && rest[i..] == buf[pos..]
    ensures i < |rest| && rest[..i + 1] == rest[..i] + [buf[pos]] && rest[i + 1..] == buf[pos + 1..]
  {
    assert rest[i..][0] == buf[pos..][0] && rest[i..][1..] == buf[pos..][1..];
  }

  /** decode_base64: whether it succeeds, and the bytes if it does. */
  method DecodeText(input: string) returns (ok: bool, output: seq<Byte>)
    ensures ok <==> Decode(input).Some?
    ensures ok ==> output == Decode(input).value
  {
    hide Shift;
    hide ByteAt;
    hide ValueOf;
    hide IsSkipped;
    output := [];
    var val: nat, valb := 0, -8;
    ghost var all := DecodeFrom(input, 0, -8);
    assert input[0..] == input;
    assert all.Some? ==> [] + all.value == all.value;
    for i := 0 to |input|
      invariant -8 <= valb < 0
      invariant var rest := DecodeFrom(input[i..], val, valb);
                if rest.None? then all.None? else all == Some(output + rest.value)
    {
      var c := input[i];
      assert input[i..][0] == c && input[i..][1..] == input[i + 1..];
      if IsSkipped(c) { continue; }
      var d := ValueOf(c);
      if d < 0 {
        return false, output;
      }
      val := Shift(val, d) % INT_MODULUS;
      valb := valb + 6;
      if valb >= 0 {
        ghost var more := DecodeFrom(input[i + 1..], val, valb - 8);
        var b := ByteAt(val, valb);
        assert more.Some? ==> output + ([b] + more.value) == (output + [b]) + more.value;
        output := output + [b];
        valb := valb - 8;
      }
    }
    assert input[|input|..] == "" && output + [] == output;
    ok := output != [];
  }

  // ----- the shape of the encoding -----

  /** The text has the length and the padding of the encoding of `count` bytes. */
  predicate IsShaped(text: string, count: nat) {
    var n, r := |text|, count % 3;
    && n == (count + 2) / 3 * 4
    && (r == 0 ==> '=' !in text)
    && (r == 1 ==> n >= 2 && text[n - 2..] == "==" && '=' !in text[..n - 2])
    && (r == 2 ==> n >= 1 && text[n - 1..] == "=" && '=' !in text[..n - 1])
  }

  lemma FourMore(front: string, text: string, count: nat)
    requires |front| == 4 && '=' !in front && IsShaped(text, count)
    ensures IsShaped(front + text, count + 3)
  {
    var n := |text|;
    assert (count + 3) % 3 == count % 3 && (count + 3 + 2) / 3 == (count + 2) / 3 + 1;
    if n >= 2 {
      assert (front + text)[4 + n - 2..] == text[n - 2..] && (front + text)[..4 + n - 2] == front + text[..n - 2];
      assert (front + text)[4 + n - 1..] == text[n - 1..] && (front + text)[..4 + n - 1] == front + text[..n - 1];
    }
  }

  /** Four characters for every three bytes begun, ending in two "=" behind one byte left over, one behind two. */
  lemma {:induction false} EncodeShape(data: seq<Byte>)
    ensures IsShaped(Encode(data), |data|)
  {
    hide Chars;
    hide Sextets;
    if |data| >= 3 {
      EncodeShape(data[3..]);
      CharsShape(Sextets(data[0], data[1], data[2]));
      hide IsShaped;
      FourMore(Chars(Sextets(data[0], data[1], data[2])), Encode(data[3..]), |data| - 3);
    } else if |data| == 2 {
      CharsShape(Sextets(data[0], data[1], 0)[..3]);
      assert Encode(data)[..3] == Chars(Sextets(data[0], data[1], 0)[..3]);
    } else if |data| == 1 {
      CharsShape(Sextets(data[0], 0, 0)[..2]);
      assert Encode(data)[..2] == Chars(Sextets(data[0], 0, 0)[..2]);
    }
  }

  lemma {:induction false} CharsShape(sextets: seq<Sextet>)
    ensures |Chars(sextets)| == |sextets| && '=' !in Chars(sextets)
  {
    hide CharOf;
    if sextets != [] {
      ValueOfChar(sextets[0]);
      CharsShape(sextets[1..]);
    }
  }

  lemma SomeCharacters()
    ensures CharOf(25) == 'Z' && CharOf(32) == 'g' && CharOf(38) == 'm' && CharOf(60) == '8' && CharOf(61) == '9'
    ensures CharOf(47) == 'v' && CharOf(24) == 'Y' && CharOf(4) == 'E' && CharOf(5) == 'F' && CharOf(50) == 'y'
  {
    AlphabetAt(25);
    AlphabetAt(32);
    AlphabetAt(38);
    AlphabetAt(60);
    AlphabetAt(61);
    AlphabetAt(47);
    AlphabetAt(24);
    AlphabetAt(4);
    AlphabetAt(5);
    AlphabetAt(50);
    hide CharOf;
  }

  lemma FourChars(s: seq<Sextet>)
    requires |s| == 4
    ensures Chars(s) == [CharOf(s[0]), CharOf(s[1]), CharOf(s[2]), CharOf(s[3])]
    ensures Chars(s[..3]) == [CharOf(s[0]), CharOf(s[1]), CharOf(s[2])]
    ensures Chars(s[..2]) == [CharOf(s[0]), CharOf(s[1])]
  {
    hide CharOf;
    OneChar(s);
    OneChar(s[1..]);
    OneChar(s[2..]);
    OneChar(s[3..]);
    OneChar(s[..3]);
    OneChar(s[..2]);
    OneChar(s[1..3]);
    OneChar(s[2..3]);
    OneChar(s[1..2]);
    assert s[..3][1..] == s[1..3] && s[1..3][1..] == s[2..3] && s[2..3][1..] == [];
    assert s[..2][1..] == s[1..2] && s[1..2][1..] == [];
    assert s[1..][1..] == s[2..] && s[2..][1..] == s[3..] && s[3..][1..] == [];
  }

  lemma OneChar(s: seq<Sextet>)
    requires s != []
    ensures Chars(s) == [CharOf(s[0])] + Chars(s[1..])
  {
  }

  /** Test vectors of section 10 of RFC 4648. */
  lemma TestVectors()
    ensures Encode([]) == "" && Encode([0x66]) == "Zg==" && Encode([0x66, 0x6F]) == "Zm8="
    ensures Encode([0x66, 0x6F, 0x6F]) == "Zm9v" && Encode([0x66, 0x6F, 0x6F, 0x62, 0x61, 0x72]) == "Zm9vYmFy"
  {
    hide CharOf;
    hide Chars;
    SomeCharacters();
    FourChars(Sextets(0x66, 0, 0));
    FourChars(Sextets(0x66, 0x6F, 0));
    FourChars(Sextets(0x66, 0x6F, 0x6F));
    FourChars(Sextets(0x62, 0x61, 0x72));
    assert Encode([0x66, 0x6F, 0x6F]) == Chars(Sextets(0x66, 0x6F, 0x6F)) + Encode([]);
    assert [0x66 as Byte, 0x6F, 0x6F, 0x62, 0x61, 0x72][3..] == [0x62, 0x61, 0x72];
    assert Encode([0x62, 0x61, 0x72]) == Chars(Sextets(0x62, 0x61, 0x72)) + Encode([]);
  }
}
