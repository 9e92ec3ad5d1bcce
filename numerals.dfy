/**
 * Integers as the client writes and reads them: C#'s 32-bit `int`, the
 * invariant-culture renderings `ToString()` and `ToString("d6")`, and the
 * sign-and-digits core of `TryParse` with `NumberStyles.Any`.
 */
module Numerals {
  import opened Wrappers
  import Text

  const MinInt32: int := -0x8000_0000
  const MaxInt32: int := 0x7fff_ffff

  /** C#'s `int`. */
  type Int32 = x: int | MinInt32 <= x <= MaxInt32

  predicate IsDigit(c: char) {
    '0' <= c <= '9'
  }

  predicate AllDigits(s: string) {
    forall i :: 0 <= i < |s| ==> IsDigit(s[i])
  }

  function DigitChar(d: nat): (c: char)
    requires d < 10
    ensures IsDigit(c)
  {
    ('0' as int + d) as char
  }

  function DigitValue(c: char): nat
    requires IsDigit(c)
  {
    c as int - '0' as int
  }

  /** The number a string of ASCII digits denotes in base ten (0 for the empty string). */
  function Value(s: string): nat
    requires AllDigits(s)
  {
    if s == [] then 0 else 10 * Value(s[..|s| - 1]) + DigitValue(s[|s| - 1])
  }

  /** The value of a numeral of at most three digits, digit by digit. */
  lemma ShortNumeralValue(s: string)
    requires 1 <= |s| <= 3 && AllDigits(s)
    ensures Value(s) == if |s| == 1 then DigitValue(s[0])
                        else if |s| == 2 then 10 * DigitValue(s[0]) + DigitValue(s[1])
                        else 100 * DigitValue(s[0]) + 10 * DigitValue(s[1]) + DigitValue(s[2])
  {
    assert Value(s[..1]) == DigitValue(s[0]) by {
      assert s[..1][..0] == [];
    }
    if |s| >= 2 {
      assert s[..2][..1] == s[..1];
      assert Value(s[..2]) == 10 * DigitValue(s[0]) + DigitValue(s[1]);
    }
    if |s| == 3 {
      assert s[..2] == s[..|s| - 1];
    } else if |s| == 2 {
      assert s[..1] == s[..|s| - 1];
    } else {
      assert s[..1] == s;
    }
  }

  /** The shortest decimal numeral of `n`: it denotes `n` and has no leading zero. */
  function Digits(n: nat): (s: string)
    ensures s != [] && AllDigits(s)
    ensures Value(s) == n
    ensures s[0] == '0' ==> n == 0
  {
    if n < 10 then
      [DigitChar(n)]
    else
      var s := Digits(n / 10) + [DigitChar(n % 10)];
      assert s[..|s| - 1] == Digits(n / 10);
      s
  }

  function Zeros(k: nat): (s: string)
    ensures |s| == k && AllDigits(s)
    ensures forall i :: 0 <= i < k ==> s[i] == '0'
  {
    if k == 0 then [] else Zeros(k - 1) + "0"
  }

  /** Leading zeros do not change the number a numeral denotes. */
  lemma {:induction false} ValueLeadingZeros(k: nat, s: string)
    requires AllDigits(s)
    ensures AllDigits(Zeros(k) + s) && Value(Zeros(k) + s) == Value(s)
  {
    var z := Zeros(k);
    assert AllDigits(z + s);
    if s == [] {
      assert z + s == z;
      AllZerosValue(k);
    } else {
      assert (z + s)[..|z + s| - 1] == z + s[..|s| - 1];
      ValueLeadingZeros(k, s[..|s| - 1]);
    }
  }

  lemma {:induction false} AllZerosValue(k: nat)
    ensures Value(Zeros(k)) == 0
  {
    if k > 0 {
      assert Zeros(k)[..k - 1] == Zeros(k - 1);
      AllZerosValue(k - 1);
    }
  }

  /** The magnitude of `n`. */
  function Abs(n: int): nat {
    if n < 0 then -n else n
  }

  /**
   * `n.ToString("d6", CultureInfo.InvariantCulture)`: the digits of |n| left-padded
   * with zeros to at least six, never truncated, with a leading '-' for negatives.
   */
  function FormatD6(n: int): (s: string)
    ensures |s| >= 6 && (n < 0 <==> s[0] == '-')
    ensures var body := s[if n < 0 then 1 else 0..];
      && AllDigits(body) && Value(body) == Abs(n)
      && |body| == if |Digits(Abs(n))| < 6 then 6 else |Digits(Abs(n))|
  {
    var digits := Digits(Abs(n));
    var padded :=
      if |digits| < 6 then
        ValueLeadingZeros(6 - |digits|, digits);
        Zeros(6 - |digits|) + digits
      else
        digits;
    assert padded[0] != '-' by { assert IsDigit(padded[0]); }
    if n < 0 then
      assert ("-" + padded)[1..] == padded;
      "-" + padded
    else
      assert padded[0..] == padded;
      padded
  }

  /** `n.ToString(null, CultureInfo.InvariantCulture)` for any integer type: '-' for negatives, then the digits. */
  function Render(n: int): (s: string)
    ensures s != [] && (n < 0 <==> s[0] == '-')
    ensures s[if n < 0 then 1 else 0..] == Digits(Abs(n))
  {
    var digits := Digits(Abs(n));
    assert digits[0] != '-' by { assert IsDigit(digits[0]); }
    if n < 0 then
      assert ("-" + digits)[1..] == digits;
      "-" + digits
    else
      assert digits[0..] == digits;
      digits
  }

  /** A rendering is a non-empty, comma-free token with no surrounding whitespace. */
  lemma RenderIsToken(n: int)
    ensures Text.IsTrimmedToken(Render(n)) && ',' !in Render(n)
  {
    var s := Render(n);
    var d := Digits(Abs(n));
    assert forall i :: 0 <= i < |d| ==> IsDigit(d[i]);
    if n < 0 {
      assert s == "-" + d;
    } else {
      assert s == d;
    }
  }

  /** The whitespace `TryParse` skips around a number: U+0009 to U+000D and the space. */
  predicate IsNumberWhite(c: char) {
    c == ' ' || ('\t' <= c <= '\r')
  }

  /** An optional leading '+' or '-' followed by one or more ASCII digits, valued within `lo..hi`. */
  function ParseSignedDigits(t: string, lo: int, hi: int): (r: Option<int>)
    ensures r.Some? ==> lo <= r.value <= hi
  {
    var signed := t != [] && (t[0] == '-' || t[0] == '+');
    var body := if signed then t[1..] else t;
    if body == [] || !AllDigits(body) then None
    else
      var magnitude: int := Value(body);
      var v := if signed && t[0] == '-' then -magnitude else magnitude;
      if lo <= v <= hi then Some(v) else None
  }

  /**
   * `TryParse(s, NumberStyles.Any, CultureInfo.InvariantCulture)` for an integer
   * type whose values are `lo..hi`, restricted to surrounding number whitespace,
   * an optional leading '+' or '-' and one or more ASCII digits. A value outside
   * the range (an overflow) fails.
   */
  function ParseInteger(s: string, lo: int, hi: int): (r: Option<int>)
    ensures r.Some? ==> lo <= r.value <= hi
  {
    ParseSignedDigits(Text.TrimWith(s, IsNumberWhite), lo, hi)
  }

  /** `int.TryParse`. */
  function ParseInt32(s: string): (r: Option<Int32>)
    ensures r.Some? <==> ParseInteger(s, MinInt32, MaxInt32).Some?
    ensures r.Some? ==> r.value == ParseInteger(s, MinInt32, MaxInt32).value
  {
    match ParseInteger(s, MinInt32, MaxInt32)
    case None => None
    case Some(v) => Some(v)
  }

  /** `byte.TryParse`. */
  function ParseByte(s: string): (r: Option<int>)
    ensures r.Some? ==> 0 <= r.value <= 255
  {
    ParseInteger(s, 0, 255)
  }

  /** The value of `body` under a sign written as "", "+" or "-". */
  function SignedValue(sign: string, body: string): int
    requires AllDigits(body)
  {
    if sign == "-" then -(Value(body) as int) else Value(body)
  }

  /**
   * What `TryParse` accepts: number whitespace, an optional '+' or '-', one or
   * more digits, number whitespace. Such text parses exactly when its signed
   * value lies in the range, and then to that value; an overflow is not clamped.
   * With `ParseIntegerAccepted` this characterises the parse completely.
   */
  lemma NumeralParses(w1: string, sign: string, body: string, w2: string, lo: int, hi: int)
    requires Text.AllWhite(w1, IsNumberWhite) && Text.AllWhite(w2, IsNumberWhite)
    requires sign == "" || sign == "+" || sign == "-"
    requires body != [] && AllDigits(body)
    ensures var v := SignedValue(sign, body);
      ParseInteger(w1 + sign + body + w2, lo, hi) == if lo <= v <= hi then Some(v) else None
  {
    var t := sign + body;
    assert IsDigit(body[0]) && IsDigit(body[|body| - 1]);
    assert t[|t| - 1] == body[|body| - 1];
    assert t[0] == if sign == "" then body[0] else sign[0];
    assert w1 + sign + body + w2 == w1 + t + w2;
    Text.TrimWithPadded(w1, t, w2, IsNumberWhite);
    Text.TrimWithIdentity(t, IsNumberWhite);
    if sign == "" {
      assert t == body && t[0] != '-' && t[0] != '+';
    } else {
      assert t[1..] == body;
    }
  }

  /** A sign-free or '-'-signed numeral parses to the number it denotes, when in range. */
  lemma SignedNumeralParses(minus: bool, body: string, lo: int, hi: int)
    requires body != [] && AllDigits(body)
    requires var m: int := Value(body); lo <= (if minus then -m else m) <= hi
    ensures var m: int := Value(body);
      ParseInteger((if minus then "-" else "") + body, lo, hi) == Some(if minus then -m else m)
  {
    var sign := if minus then "-" else "";
    assert "" + sign + body + "" == sign + body;
    NumeralParses("", sign, body, "", lo, hi);
  }

  /** A sign-free or '-'-signed numeral whose value lies outside the range fails to parse: an overflow is not clamped. */
  lemma ParseOutOfRange(minus: bool, body: string, lo: int, hi: int)
    requires body != [] && AllDigits(body)
    requires var m: int := Value(body); !(lo <= (if minus then -m else m) <= hi)
    ensures ParseInteger((if minus then "-" else "") + body, lo, hi) == None
  {
    var sign := if minus then "-" else "";
    assert "" + sign + body + "" == sign + body;
    NumeralParses("", sign, body, "", lo, hi);
  }

  /**
   * What a successful parse accepted: the text, stripped of number whitespace,
   * is one or more digits with an optional leading '+' or '-', and the value is
   * the number they denote with that sign.
   */
  lemma ParseIntegerAccepted(s: string, lo: int, hi: int)
    requires ParseInteger(s, lo, hi).Some?
    ensures var t := Text.TrimWith(s, IsNumberWhite);
      var v := ParseInteger(s, lo, hi).value;
      exists body :: body != [] && AllDigits(body)
        && ((t == body && v == Value(body))
         || (t == "+" + body && v == Value(body))
         || (t == "-" + body && v == -(Value(body) as int)))
  {
    var t := Text.TrimWith(s, IsNumberWhite);
    var signed := t != [] && (t[0] == '-' || t[0] == '+');
    var body := if signed then t[1..] else t;
    if signed {
      assert t == [t[0]] + body;
    }
  }

  /** Parsing inverts the invariant rendering, for every value of the target type. */
  lemma ParseRender(n: int, lo: int, hi: int)
    requires lo <= n <= hi
    ensures ParseInteger(Render(n), lo, hi) == Some(n)
  {
    var s := Render(n);
    var body := s[if n < 0 then 1 else 0..];
    SignedNumeralParses(n < 0, body, lo, hi);
    if n < 0 {
      assert s == "-" + body;
    } else {
      assert s == "" + body;
    }
  }

  /** Parsing inverts the zero-padded rendering, for every value of the target type. */
  lemma ParseFormatD6(n: int, lo: int, hi: int)
    requires lo <= n <= hi
    ensures ParseInteger(FormatD6(n), lo, hi) == Some(n)
  {
    var s := FormatD6(n);
    var body := s[if n < 0 then 1 else 0..];
    SignedNumeralParses(n < 0, body, lo, hi);
    if n < 0 {
      assert s == "-" + body;
    } else {
      assert s == "" + body;
    }
  }
}
