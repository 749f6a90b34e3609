/** The slice of Kotlin/JVM semantics that the activity relies on: the range of
    `Long`, truncating `/` and `%`, `String.toLong()` and the `%02d` conversion
    of `String.format`. */
module Kotlin {
  import opened Wrappers
  import opened Decimal

  const MinLong: int := -0x8000_0000_0000_0000
  const MaxLong: int := 0x7FFF_FFFF_FFFF_FFFF

  /** A 64-bit signed Kotlin `Long`. */
  type Long = x: int | MinLong <= x <= MaxLong

  /** Kotlin's integer `/`: the quotient rounded toward zero (not Euclidean). */
  function Quot(a: int, b: int): (q: int)
    requires b > 0
    ensures a >= 0 ==> 0 <= q && q * b <= a < q * b + b
    ensures a < 0 ==> q <= 0 && q * b - b < a <= q * b
  {
    if a >= 0 then
      DivBounds(a, b);
      a / b
    else
      DivBounds(-a, b);
      -((-a) / b)
  }

  lemma DivBounds(a: nat, b: int)
    requires b > 0
    ensures (a / b) * b <= a < (a / b) * b + b
    ensures a == (a / b) * b + a % b
  {
    var q, r := a / b, a % b;
    assert a == b * q + r && 0 <= r < b;
  }

  /** Kotlin's integer `%`: what `Quot` leaves over, with the dividend's sign. */
  function Rem(a: int, b: int): (r: int)
    requires b > 0
    ensures a == Quot(a, b) * b + r
    ensures a >= 0 ==> 0 <= r < b
    ensures a < 0 ==> -b < r <= 0
  {
    if a >= 0 then
      DivBounds(a, b);
      a % b
    else
      DivBounds(-a, b);
      -((-a) % b)
  }

  predicate IsSign(c: char) {
    c == '-' || c == '+'
  }

  /** The digit part of a numeral: everything after an optional leading sign. */
  function Magnitude(s: string): (m: string)
    ensures |m| <= |s|
  {
    if |s| > 0 && IsSign(s[0]) then s[1..] else s
  }

  /** `String.toLong()` (radix 10): `None` stands for the
      NumberFormatException it throws on an empty string, a lone sign, a
      character that is not a digit, or a value outside the `Long` range. */
  function ParseLong(s: string): (r: Option<Long>)
    ensures r.Some? ==> |s| >= 1 && (IsDigit(s[0]) || (IsSign(s[0]) && |s| >= 2))
    ensures r.Some? ==> forall i :: 0 < i < |s| ==> IsDigit(s[i])
    ensures r.Some? && s[0] == '-' ==> r.value <= 0
    ensures r.Some? && s[0] != '-' ==> r.value >= 0
  {
    var digits := Magnitude(s);
    if digits == [] || !AllDigits(digits) then
      None
    else
      var v: int := if s[0] == '-' then -(Value(digits) as int) else Value(digits);
      if MinLong <= v <= MaxLong then Some(v) else None
  }

  /** `toLong()` on a numeral (an optional sign, then at least one digit,
      leading zeros allowed): the signed value of the digits when it fits a
      `Long`, and a NumberFormatException otherwise. With the shape clauses
      of `ParseLong` this pins down `toLong()` on every string. */
  lemma ParseLongNumeral(sign: string, digits: string)
    requires sign == "" || sign == "+" || sign == "-"
    requires |digits| >= 1 && AllDigits(digits)
    ensures var v := if sign == "-" then -(Value(digits) as int) else Value(digits);
      ParseLong(sign + digits) == if MinLong <= v <= MaxLong then Some(v) else None
  {
    var s := sign + digits;
    if sign == "" {
      assert s == digits;
      assert !IsSign(s[0]);
    } else {
      assert s[0] == sign[0];
      assert s[1..] == digits;
    }
    assert Magnitude(s) == digits;
  }

  /** A plus sign is accepted and does not change the value. */
  lemma ParseLongPlus()
    ensures ParseLong("+5") == Some(5)
  {
    ParseLongNumeral("+", "5");
  }

  /** Leading zeros are accepted and do not change the value. */
  lemma ParseLongLeadingZeros()
    ensures ParseLong("007") == Some(7)
  {
    assert Value("007") == 7 by {
      assert "007"[..2] == "00" && "00"[..1] == "0";
    }
    ParseLongNumeral("", "007");
  }

  /** The canonical decimal rendering of a number (`Long.toString()`). */
  function ShowLong(v: int): string {
    if v < 0 then "-" + Show(-v) else Show(v)
  }

  /** `toLong()` reads back every `Long` from its canonical rendering. */
  lemma ParseShowLong(v: Long)
    ensures ParseLong(ShowLong(v)) == Some(v)
  {
    if v < 0 {
      ParseNegative(-(v as int));
    } else {
      ParseNonNegative(v);
    }
  }

  lemma ParseNegative(n: nat)
    requires 0 < n <= -MinLong
    ensures ParseLong("-" + Show(n)) == Some(-(n as int))
  {
    var s := "-" + Show(n);
    assert s[0] == '-';
    assert s[1..] == Show(n);
    assert Magnitude(s) == Show(n);
  }

  lemma ParseNonNegative(n: nat)
    requires n <= MaxLong
    ensures ParseLong(Show(n)) == Some(n)
  {
    var s := Show(n);
    assert IsDigit(s[0]);
    assert Magnitude(s) == s;
  }

  /** `toLong()` never reads a value outside the `Long` range. */
  lemma ParseLongOutOfRange(s: string)
    requires |s| >= 1 && AllDigits(s) && Value(s) > MaxLong
    ensures ParseLong(s) == None
  {
  }

  /** `String.format("%02d", n)`: a non-negative value gets a leading zero
      when it has one digit; a negative value gets its sign and no padding,
      because the sign already fills the width. */
  function FormatPad2(n: int): string {
    if n < 0 then
      "-" + Show(-n)
    else if n < 10 then
      "0" + Show(n)
    else
      Show(n)
  }

  /** `%02d` prints at least two characters, exactly two for a non-negative
      value below 100, and a minus sign first for a negative value. The
      padding only fills the width: a value of 10 or more, and the magnitude
      of a negative value, start with a non-zero digit. */
  lemma FormatPad2Width(n: int)
    ensures |FormatPad2(n)| >= 2
    ensures n >= 0 ==> (|FormatPad2(n)| == 2 <==> n < 100)
    ensures n < 0 ==> FormatPad2(n)[0] == '-'
    ensures n >= 10 ==> FormatPad2(n)[0] != '0'
    ensures n < 0 ==> FormatPad2(n)[1] != '0'
  {
    if n >= 10 {
      ShowLength(n, 2);
      assert Pow10(2) == 100;
    }
  }

  /** Reading a `%02d` field back: the digits after an optional minus sign
      are the magnitude of the value printed, leading zero included. */
  lemma FormatPad2Value(n: int)
    ensures n >= 0 ==> AllDigits(FormatPad2(n)) && Value(FormatPad2(n)) == n
    ensures n < 0 ==> AllDigits(FormatPad2(n)[1..]) && Value(FormatPad2(n)[1..]) == -n
  {
    if n < 0 {
      assert FormatPad2(n)[1..] == Show(-n);
    } else if n < 10 {
      LeadingZero(Show(n));
    }
  }

  /** `%02d` on a one-digit value: a zero, then the digit. */
  lemma FormatPad2OneDigit(n: nat)
    requires n < 10
    ensures FormatPad2(n) == ['0', DigitChar(n)]
  {
  }

  /** `%02d` on a two-digit value: its tens digit, then its units digit. */
  lemma FormatPad2TwoDigits(n: nat)
    requires 10 <= n < 100
    ensures FormatPad2(n) == [DigitChar(n / 10), DigitChar(n % 10)]
  {
    assert Show(n / 10) == [DigitChar(n / 10)];
  }
}
