/**
 * Number text: the decimal part of strconv.ParseFloat that decides whether a
 * sensor value is stored, and the %d formatting of an int used for the
 * mirror's host:port.
 *
 * Values are exact reals; float64 rounding is not modelled.
 */
module Numbers {
  import opened Wrappers
  import opened Text

  predicate IsDigit(c: char) { '0' <= c <= '9' }

  predicate AllDigits(s: string) { forall i :: 0 <= i < |s| ==> IsDigit(s[i]) }

  function DigitValue(c: char): (d: nat)
    requires IsDigit(c)
    ensures d < 10
  {
    c as int - '0' as int
  }

  function DigitChar(d: nat): (c: char)
    requires d < 10
    ensures IsDigit(c) && DigitValue(c) == d
  {
    ('0' as int + d) as char
  }

  /** The value of a string of decimal digits, most significant first. */
  function DigitsValue(s: string): nat
    requires AllDigits(s)
  {
    if s == [] then 0 else 10 * DigitsValue(s[..|s| - 1]) + DigitValue(s[|s| - 1])
  }

  /** The value of the digits after a decimal point: "25" is 0.25. */
  function FractionValue(s: string): real
    requires AllDigits(s)
  {
    if s == [] then 0.0 else (DigitValue(s[0]) as real + FractionValue(s[1..])) / 10.0
  }

  /** Characters that may appear in the mantissa: digits and the point. */
  predicate IsMantissaChar(c: char) { IsDigit(c) || c == '.' }

  /** Length of the longest prefix of s made of mantissa characters. */
  function MantissaLength(s: string): (n: nat)
    ensures n <= |s|
  {
    if s == [] || !IsMantissaChar(s[0]) then 0 else 1 + MantissaLength(s[1..])
  }

  /** The mantissa is the longest prefix of mantissa characters. */
  lemma {:induction false} MantissaLengthLongest(s: string)
    ensures forall i :: 0 <= i < MantissaLength(s) ==> IsMantissaChar(s[i])
    ensures MantissaLength(s) < |s| ==> !IsMantissaChar(s[MantissaLength(s)])
  {
    if s != [] && IsMantissaChar(s[0]) {
      MantissaLengthLongest(s[1..]);
      assert forall i :: 1 <= i < |s| ==> s[i] == s[1..][i - 1];
    }
  }

  /** A mantissa: digits with at most one point, and at least one digit. */
  function ParseMantissa(m: string): Option<real>
  {
    var c := Cut(m, '.');
    if AllDigits(c.before) && AllDigits(c.after) && |c.before| + |c.after| > 0 then
      Some(DigitsValue(c.before) as real + FractionValue(c.after))
    else None
  }

  /** An exponent suffix: empty, or e/E, an optional sign and at least one digit. */
  function ParseExponent(e: string): (r: Option<int>)
  {
    if e == [] then Some(0)
    else if e[0] != 'e' && e[0] != 'E' then None
    else
      var t := e[1..];
      var neg := |t| > 0 && t[0] == '-';
      var digits := if |t| > 0 && (t[0] == '-' || t[0] == '+') then t[1..] else t;
      if digits != [] && AllDigits(digits) then
        Some(if neg then -(DigitsValue(digits) as int) else DigitsValue(digits) as int)
      else None
  }

  /** x * 10^e for an integer exponent e. */
  function Scale(x: real, e: int): real
    decreases if e >= 0 then e else -e
  {
    if e == 0 then x else if e > 0 then 10.0 * Scale(x, e - 1) else Scale(x, e + 1) / 10.0
  }

  /** An unsigned decimal number: mantissa and optional exponent. */
  function ParseUnsigned(s: string): Option<real> {
    var n := MantissaLength(s);
    match ParseMantissa(s[..n])
    case None => None
    case Some(m) =>
      match ParseExponent(s[n..])
      case None => None
      case Some(e) => Some(Scale(m, e))
  }

  /**
   * strconv.ParseFloat(s, 64) on decimal text: an optional sign, digits with
   * at most one point (at least one digit), and an optional exponent.
   * None is the error result, on which the exporter skips the field.
   */
  function ParseNumber(s: string): Option<real> {
    if |s| > 0 && (s[0] == '+' || s[0] == '-') then
      match ParseUnsigned(s[1..])
      case None => None
      case Some(v) => Some(if s[0] == '-' then -v else v)
    else ParseUnsigned(s)
  }

  /** The decimal digits of a natural number, without leading zeros. */
  function NatString(n: nat): (s: string)
    ensures s != [] && AllDigits(s)
    decreases n
  {
    if n < 10 then [DigitChar(n)] else NatString(n / 10) + [DigitChar(n % 10)]
  }

  /** fmt's %d of an int: a minus sign for negatives, then the digits. */
  function DecimalString(n: int): string {
    if n < 0 then "-" + NatString(-n) else NatString(n)
  }

  lemma {:induction false} NatStringValue(n: nat)
    ensures DigitsValue(NatString(n)) == n
    decreases n
  {
    if n >= 10 {
      NatStringValue(n / 10);
      var s := NatString(n);
      assert s[..|s| - 1] == NatString(n / 10);
    }
  }

  /** A string of digits is all mantissa; it parses as its digit value. */
  lemma DigitsParse(s: string)
    requires s != [] && AllDigits(s)
    ensures ParseUnsigned(s) == Some(DigitsValue(s) as real)
    ensures ParseNumber(s) == Some(DigitsValue(s) as real)
  {
    assert IsDigit(s[0]);
    MantissaAllDigits(s);
    assert s[..|s|] == s;
    assert s[|s|..] == [];
    assert '.' !in s by {
      assert forall i :: 0 <= i < |s| ==> IsDigit(s[i]);
    }
  }

  lemma {:induction false} MantissaAllDigits(s: string)
    requires AllDigits(s)
    ensures MantissaLength(s) == |s|
  {
    if s != [] { MantissaAllDigits(s[1..]); }
  }

  /** The mantissa of a + rest is a when a is all mantissa characters and rest does not go on with one. */
  lemma {:induction false} MantissaLengthOf(a: string, rest: string)
    requires forall i :: 0 <= i < |a| ==> IsMantissaChar(a[i])
    requires rest == [] || !IsMantissaChar(rest[0])
    ensures MantissaLength(a + rest) == |a|
  {
    if a == [] {
      assert a + rest == rest;
    } else {
      assert (a + rest)[1..] == a[1..] + rest;
      MantissaLengthOf(a[1..], rest);
    }
  }

  /** ParseUnsigned splits its text into the mantissa a and the exponent suffix rest. */
  lemma UnsignedParts(a: string, rest: string)
    requires forall i :: 0 <= i < |a| ==> IsMantissaChar(a[i])
    requires rest == [] || !IsMantissaChar(rest[0])
    ensures ParseUnsigned(a + rest) ==
      if ParseMantissa(a).Some? && ParseExponent(rest).Some? then Some(Scale(ParseMantissa(a).value, ParseExponent(rest).value)) else None
  {
    MantissaLengthOf(a, rest);
    assert (a + rest)[..|a|] == a && (a + rest)[|a|..] == rest;
  }

  /** Digits, a point and digits: the integer part plus the fraction, if there is a digit at all. */
  lemma PointMantissa(a: string, b: string)
    requires AllDigits(a) && AllDigits(b)
    ensures ParseMantissa(a + "." + b) == if |a| + |b| > 0 then Some(DigitsValue(a) as real + FractionValue(b)) else None
  {
    DigitsHaveNoPoint(a);
    CutAtFirst(a, '.', b);
    assert a + "." + b == a + ['.'] + b;
  }

  lemma DigitsHaveNoPoint(a: string)
    requires AllDigits(a)
    ensures '.' !in a
  {
    assert forall i :: 0 <= i < |a| ==> IsDigit(a[i]);
  }

  /** The %d text of every int parses back to that int. */
  lemma DecimalStringParses(n: int)
    ensures ParseNumber(DecimalString(n)) == Some(n as real)
  {
    var t := NatString(if n < 0 then -n else n);
    DigitsParse(t);
    NatStringValue(if n < 0 then -n else n);
    assert ParseUnsigned(t) == Some((if n < 0 then -n else n) as real);
    if n < 0 {
      var s := DecimalString(n);
      assert s[0] == '-' && s[1..] == t;
      NegativeParse(s);
    } else {
      assert !(t[0] == '+' || t[0] == '-') by { assert IsDigit(t[0]); }
    }
  }

  lemma NegativeParse(s: string)
    requires |s| > 0 && s[0] == '-' && ParseUnsigned(s[1..]).Some?
    ensures ParseNumber(s) == Some(-ParseUnsigned(s[1..]).value)
  {
  }

  /** Unsigned decimal text with a point and at least one digit (".5" included): its integer part plus its fraction. */
  lemma DecimalParse(a: string, b: string)
    requires |a| + |b| > 0 && AllDigits(a) && AllDigits(b)
    ensures ParseNumber(a + "." + b) == Some(DigitsValue(a) as real + FractionValue(b))
  {
    var m := a + "." + b;
    PointMantissa(a, b);
    PointTextChars(a, b);
    UnsignedParts(m, "");
    assert m + "" == m;
    if a == [] { assert m[0] == '.'; } else { assert m[0] == a[0] && IsDigit(a[0]); }
  }

  lemma PointTextChars(a: string, b: string)
    requires AllDigits(a) && AllDigits(b)
    ensures forall i :: 0 <= i < |a + "." + b| ==> IsMantissaChar((a + "." + b)[i])
  {
    var m := a + "." + b;
    forall i | 0 <= i < |m| ensures IsMantissaChar(m[i]) {
      if i < |a| { assert m[i] == a[i]; } else if i > |a| { assert m[i] == b[i - |a| - 1]; }
    }
  }

  /** A reading seen in reports with a decimal point: "72.5" is 72.5. */
  lemma DecimalReadingExample()
    ensures ParseNumber("72.5") == Some(72.5)
  {
    DecimalParse("72", "5");
    assert "72" + "." + "5" == "72.5";
    assert DigitsValue("72") == 72 by { assert "72"[..1] == "7"; }
  }

  /** An integer reading: "45" is 45. */
  lemma IntegerReadingExample()
    ensures ParseNumber("45") == Some(45.0)
  {
    DigitsParse("45");
    assert DigitsValue("45") == 45 by { assert "45"[..1] == "4"; }
  }

  /** A reading without an integer part: ".5" is 0.5. */
  lemma FractionOnlyExample()
    ensures ParseNumber(".5") == Some(0.5)
  {
    DecimalParse("", "5");
    assert "" + "." + "5" == ".5";
  }

  /** An exponent suffix "e" or "e-" followed by digits. */
  lemma ExponentOfDigits(d: string)
    requires d != [] && AllDigits(d)
    ensures ParseExponent("e" + d) == Some(DigitsValue(d) as int)
    ensures ParseExponent("e-" + d) == Some(-(DigitsValue(d) as int))
  {
    assert ("e" + d)[0] == 'e' && ("e" + d)[1..] == d;
    assert IsDigit(d[0]);
    assert ("e-" + d)[0] == 'e' && ("e-" + d)[1..] == "-" + d;
    assert ("-" + d)[0] == '-' && ("-" + d)[1..] == d;
  }

  /** A mantissa with an exponent, "e" or "E": the mantissa's value scaled by ten to the exponent. */
  lemma ExponentParse(m: string, e: string)
    requires forall i :: 0 <= i < |m| ==> IsMantissaChar(m[i])
    requires ParseMantissa(m).Some? && |e| > 0 && (e[0] == 'e' || e[0] == 'E') && ParseExponent(e).Some?
    ensures ParseUnsigned(m + e) == Some(Scale(ParseMantissa(m).value, ParseExponent(e).value))
    ensures ParseNumber(m + e) == Some(Scale(ParseMantissa(m).value, ParseExponent(e).value))
  {
    assert (m + e)[0] == m[0] && IsMantissaChar(m[0]);
    UnsignedParts(m, e);
  }

  /** Text that is not a number is rejected: "N/A", "" and a lone point. */
  lemma NonNumericExamples()
    ensures ParseNumber("N/A") == None
    ensures ParseNumber("") == None
    ensures ParseNumber(".") == None
  {
    assert MantissaLength("N/A") == 0;
    assert MantissaLength(".") == 1;
    assert "."[..1] == ".";
    assert Cut(".", '.') == CutResult("", "", true);
  }
}
