/** Decimal and hexadecimal text: the strto* family behind std::stoul, std::stoull and std::stoi,
    stream extraction of an int, and std::to_string. */
module Numbers {
  import opened Text

  const SIZE_MODULUS := 0x1_0000_0000_0000_0000

  lemma SmallModulo(n: nat, m: nat)
    requires n < m
    ensures n % m == n
  {
  }

  // ----- digits -----

  function DigitOf(c: char): nat {
    if '0' <= c <= '9' then c as int - '0' as int
    else if 'a' <= c <= 'f' then c as int - 'a' as int + 10
    else if 'A' <= c <= 'F' then c as int - 'A' as int + 10
    else 16
  }

  /** The two bases the client parses. */
  type Base = b: nat | b == 10 || b == 16 witness 10

  predicate IsDigit(c: char, base: Base) {
    DigitOf(c) < base
  }

  predicate AllDigits(s: string, base: Base) {
    forall c :: c in s ==> IsDigit(c, base)
  }

  /** The longest prefix of `s` made of digits. */
  function DigitRun(s: string, base: Base): string {
    if s == "" || !IsDigit(s[0], base) then "" else [s[0]] + DigitRun(s[1..], base)
  }

  lemma {:induction false} DigitRunIs(digits: string, rest: string, base: Base)
    requires AllDigits(digits, base)
    requires rest != "" ==> !IsDigit(rest[0], base)
    ensures DigitRun(digits + rest, base) == digits
  {
    if digits == "" {
      assert digits + rest == rest;
    } else {
      assert (digits + rest)[1..] == digits[1..] + rest;
      DigitRunIs(digits[1..], rest, base);
    }
  }

  function Shift(n: nat, base: Base): nat {
    if base == 10 then 10 * n else 16 * n
  }

  function NatOf(digits: string, base: Base): nat {
    if digits == "" then 0
    else Shift(NatOf(digits[..|digits| - 1], base), base) + DigitOf(digits[|digits| - 1])
  }

  // ----- std::stoul / std::stoull -----

  /** The text after an optional sign, and whether that sign was a minus. */
  function SplitSign(s: string): (bool, string) {
    if s != "" && (s[0] == '-' || s[0] == '+') then (s[0] == '-', s[1..]) else (false, s)
  }

  /** strtoul skips "0x" in base 16 when a hexadecimal digit follows. */
  function SkipHexPrefix(s: string, base: Base): string {
    if base == 16 && |s| >= 3 && s[0] == '0' && (s[1] == 'x' || s[1] == 'X') && IsDigit(s[2], 16) then s[2..] else s
  }

  /** The sign and the digits that the strto* family sees after leading white space. */
  function Numeral(s: string, base: Base): (bool, string) {
    var (negative, rest) := SplitSign(TrimLeft(s));
    (negative, DigitRun(SkipHexPrefix(rest, base), base))
  }

  /** A minus sign negates modulo 2^64, as strtoul specifies. */
  function UnsignedOf(negative: bool, magnitude: nat): (r: Option<nat>)
    ensures r.Some? ==> r.value < SIZE_MODULUS
  {
    if magnitude >= SIZE_MODULUS then None
    else if negative && magnitude > 0 then Some(SIZE_MODULUS - magnitude)
    else Some(magnitude)
  }

  /** std::stoul(s, nullptr, base): None where the library throws (no digits, or out of the 64-bit range). */
  function ParseUnsigned(s: string, base: Base): (r: Option<nat>)
    ensures r.Some? ==> r.value < SIZE_MODULUS
  {
    var (negative, digits) := Numeral(s, base);
    if digits == "" then None else UnsignedOf(negative, NatOf(digits, base))
  }

  lemma NumeralUnfolds(s: string, base: Base)
    requires s != "" && !IsSpace(s[0])
    ensures Numeral(s, base) == (SplitSign(s).0, DigitRun(SkipHexPrefix(SplitSign(s).1, base), base))
  {
  }

  /** Plain digits are their own numeral. */
  lemma NumeralOfDigits(s: string, base: Base)
    requires s != "" && AllDigits(s, base)
    ensures Numeral(s, base) == (false, s)
  {
    assert IsDigit(s[0], base);
    assert |s| >= 2 ==> IsDigit(s[1], base);
    NumeralUnfolds(s, base);
    DigitRunIs(s, "", base);
    assert s + "" == s;
  }

  /** White space behind the digits never changes the numeral. */
  lemma NumeralIgnoresTail(s: string, tail: string, base: Base)
    requires AllSpace(tail)
    requires s != "" ==> !IsSpace(s[0])
    ensures Numeral(s + tail, base) == Numeral(s, base)
  {
    if s == "" {
      assert s + tail == tail + "";
      TrimLeftSkips(tail, "");
    } else {
      var rest := SplitSign(s).1;
      assert SplitSign(s + tail) == (SplitSign(s).0, rest + tail) by {
        assert (s + tail)[0] == s[0] && (s + tail)[1..] == s[1..] + tail;
      }
      SkipHexPrefixIgnoresTail(rest, tail, base);
      DigitRunIgnoresTail(SkipHexPrefix(rest, base), tail, base);
      NumeralUnfolds(s, base);
      NumeralUnfolds(s + tail, base);
    }
  }

  lemma {:induction false} DigitRunIgnoresTail(s: string, tail: string, base: Base)
    requires AllSpace(tail)
    ensures DigitRun(s + tail, base) == DigitRun(s, base)
  {
    if s == "" {
      assert s + tail == tail;
      assert tail != "" ==> tail[0] in tail;
    } else {
      assert (s + tail)[1..] == s[1..] + tail;
      DigitRunIgnoresTail(s[1..], tail, base);
    }
  }

  lemma SkipHexPrefixIgnoresTail(s: string, tail: string, base: Base)
    requires AllSpace(tail)
    ensures SkipHexPrefix(s + tail, base) == SkipHexPrefix(s, base) + tail
  {
    if |s| < 3 <= |s + tail| {
      assert (s + tail)[2] in tail;
    }
    if |s| >= 3 {
      assert (s + tail)[2..] == s[2..] + tail;
    }
  }

  lemma SignedNumeral(sign: char, digits: string, base: Base)
    requires (sign == '-' || sign == '+') && digits != "" && AllDigits(digits, base) && base == 10
    ensures Numeral([sign] + digits, base) == (sign == '-', digits)
  {
    NumeralUnfolds([sign] + digits, base);
    assert ([sign] + digits)[1..] == digits;
    DigitRunIs(digits, "", base);
    assert digits + "" == digits;
  }

  // ----- stream extraction of an int (operator>>) -----

  const INT_MAX := 0x7fff_ffff
  const INT_MIN := -0x8000_0000

  function SignedOf(negative: bool, magnitude: nat): int {
    if negative then -(magnitude as int) else magnitude
  }

  /** `stream >> value` on the remaining text: 0 without digits, clamped when out of range. */
  function ExtractInt(s: string): int {
    var (negative, digits) := Numeral(s, 10);
    var v := SignedOf(negative, NatOf(digits, 10));
    if digits == "" then 0 else if v > INT_MAX then INT_MAX else if v < INT_MIN then INT_MIN else v
  }

  /** std::stoi: None where it throws. */
  function ParseInt(s: string): Option<int> {
    var (negative, digits) := Numeral(s, 10);
    var v := SignedOf(negative, NatOf(digits, 10));
    if digits == "" || v > INT_MAX || v < INT_MIN then None else Some(v)
  }

  // ----- std::to_string -----

  function DigitChar(d: nat): (c: char)
    requires d < 10
    ensures IsDigit(c, 10) && DigitOf(c) == d
  {
    ('0' as int + d) as char
  }

  function ToDecimal(n: nat): (s: string)
    ensures s != "" && AllDigits(s, 10) && NatOf(s, 10) == n
    ensures s[0] == '0' ==> n == 0
  {
    if n < 10 then
      assert NatOf([DigitChar(n)][..0], 10) == 0;
      [DigitChar(n)]
    else
      var s := ToDecimal(n / 10) + [DigitChar(n % 10)];
      assert s[..|s| - 1] == ToDecimal(n / 10);
      s
  }

  // ----- hexadecimal text -----

  const HEX_LOWER := "0123456789abcdef"
  const HEX_UPPER := "0123456789ABCDEF"

  /** A number in hexadecimal with the given sixteen digits, without leading zeros. */
  function ToHex(n: nat, digits: string): (s: string)
    requires |digits| == 16
    ensures s != ""
  {
    if n < 16 then [digits[n]] else ToHex(n / 16, digits) + [digits[n % 16]]
  }

  lemma HexDigits(d: nat, digits: string)
    requires d < 16 && (digits == HEX_LOWER || digits == HEX_UPPER)
    ensures DigitOf(digits[d]) == d
  {
  }

  lemma {:induction false} ToHexReads(n: nat, digits: string)
    requires digits == HEX_LOWER || digits == HEX_UPPER
    ensures AllDigits(ToHex(n, digits), 16) && NatOf(ToHex(n, digits), 16) == n
  {
    HexDigits(n % 16, digits);
    hide HEX_LOWER;
    hide HEX_UPPER;
    hide DigitOf;
    if n < 16 {
      assert NatOf([digits[n]][..0], 16) == 0;
    } else {
      ToHexReads(n / 16, digits);
      assert ToHex(n, digits)[..|ToHex(n, digits)| - 1] == ToHex(n / 16, digits);
    }
  }

  lemma ToDecimalInjective(m: nat, n: nat)
    requires ToDecimal(m) == ToDecimal(n)
    ensures m == n
  {
    assert NatOf(ToDecimal(m), 10) == NatOf(ToDecimal(n), 10);
  }

  /** Which decimal numbers the library functions read: 64 bits, a negative one being taken modulo 2^64. */
  lemma ParseUnsignedPrint(n: nat)
    ensures ParseUnsigned(ToDecimal(n), 10) == if n <= 18446744073709551615 then Some(n) else None
    ensures ParseUnsigned("-" + ToDecimal(n), 10) ==
            if n == 0 then Some(0) else if n <= 18446744073709551615 then Some(18446744073709551616 - n) else None
    ensures ParseUnsigned("", 10) == None && ParseUnsigned("x", 10) == None
  {
    var digits := ToDecimal(n);
    assert digits != "" && AllDigits(digits, 10) && NatOf(digits, 10) == n;
    hide ToDecimal;
    hide NatOf;
    NumeralOfDigits(digits, 10);
    SignedNumeral('-', digits, 10);
    assert "-" + digits == ['-'] + digits;
    assert Numeral("", 10) == (false, "") && Numeral("x", 10) == (false, "") by {
      assert TrimLeft("x") == "x";
    }
    hide Numeral;
  }

  /** std::stoi throws outside of 32 bits, where the stream extraction clamps. */
  lemma ParseIntPrint(n: nat)
    ensures ParseInt(ToDecimal(n)) == if n <= 2147483647 then Some(n) else None
    ensures ExtractInt(ToDecimal(n)) == if n <= 2147483647 then n else 2147483647
  {
    var digits := ToDecimal(n);
    assert digits != "" && AllDigits(digits, 10) && NatOf(digits, 10) == n;
    hide ToDecimal;
    hide NatOf;
    NumeralOfDigits(digits, 10);
    hide Numeral;
  }

  lemma ParseIntMinus(n: nat)
    ensures ParseInt("-" + ToDecimal(n)) == if n <= 2147483648 then Some(-(n as int)) else None
    ensures ExtractInt("-" + ToDecimal(n)) == if n <= 2147483648 then -(n as int) else -2147483648
  {
    var digits := ToDecimal(n);
    MinusNumeral(n);
    assert NatOf(digits, 10) == n && digits != "";
    hide ToDecimal;
    hide NatOf;
    hide Numeral;
  }

  /** Text that does not begin with a number is extracted as 0 and makes the other functions throw. */
  lemma NoNumber(text: string)
    requires Numeral(text, 10).1 == ""
    ensures ExtractInt(text) == 0 && ParseInt(text).None? && ParseUnsigned(text, 10).None? && ParseLongLong(text).None?
  {
  }

  lemma MinusNumeral(n: nat)
    ensures Numeral("-" + ToDecimal(n), 10) == (true, ToDecimal(n))
  {
    var digits := ToDecimal(n);
    assert digits != "" && AllDigits(digits, 10);
    hide ToDecimal;
    hide Numeral;
    SignedNumeral('-', digits, 10);
    assert "-" + digits == ['-'] + digits;
  }

  // ----- std::stoll and the printing of a long long -----

  const LONG_LIMIT := 0x8000_0000_0000_0000

  /** std::stoll: None where it throws. */
  function ParseLongLong(s: string): (r: Option<int>)
    ensures r.Some? ==> -LONG_LIMIT <= r.value < LONG_LIMIT
  {
    var (negative, digits) := Numeral(s, 10);
    var v := SignedOf(negative, NatOf(digits, 10));
    if digits == "" || v >= LONG_LIMIT || v < -LONG_LIMIT then None else Some(v)
  }

  function PrintInt(n: int): (s: string)
    ensures s != ""
  {
    if n < 0 then "-" + ToDecimal(-n) else ToDecimal(n)
  }

  lemma ParseLongLongPrint(n: int)
    ensures ParseLongLong(PrintInt(n)) ==
            if -9223372036854775808 <= n <= 9223372036854775807 then Some(n) else None
  {
    if n < 0 {
      var digits := ToDecimal(-n);
      assert PrintInt(n)[1..] == digits;
      NumeralUnfolds(PrintInt(n), 10);
      DigitRunIs(digits, "", 10);
      assert digits + "" == digits;
    } else {
      NumeralOfDigits(ToDecimal(n), 10);
    }
  }
}
