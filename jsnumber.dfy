/** JavaScript's `Number(text)` conversion (ToNumber applied to a string), which the
    converters and the date and time handlers use to read digits.

    Integers are exact. A decimal literal with a fraction, an exponent or `Infinity` denotes a
    floating-point number, whose value is not modelled; everything else is `NaN`. */
module JsNumber {
  import opened Text

  datatype Num = Int(i: int) | NaN | FloatingPoint

  /** JavaScript truthiness of a number: zero and NaN are falsy. */
  predicate Truthy(n: Num)
  {
    !(n == Int(0) || n.NaN?)
  }

  /** `Number(a) || 0`: a falsy number is replaced by zero. */
  function OrZero(n: Num): (r: Num)
    ensures Truthy(n) ==> r == n
    ensures !Truthy(n) ==> r == Int(0)
  {
    if Truthy(n) then n else Int(0)
  }

  predicate AllDecimal(s: string)
  {
    forall i :: 0 <= i < |s| ==> IsDecimalDigit(s[i])
  }

  /** The optional exponent part of a decimal literal: `e` or `E`, an optional sign, digits. */
  predicate IsExponentPart(s: string)
  {
    s == [] ||
    (|s| >= 2 && (s[0] == 'e' || s[0] == 'E') &&
      var e := if s[1] == '+' || s[1] == '-' then s[2..] else s[1..];
      e != [] && AllDecimal(e))
  }

  /** An unsigned decimal literal: `Infinity`, or digits with an optional fraction (at least
      one digit in all) and an optional exponent. */
  predicate IsUnsignedDecimal(s: string)
  {
    s == "Infinity" ||
    var d1 := DigitRun(s);
    var rest := s[d1..];
    if rest != [] && rest[0] == '.' then
      var frac := rest[1..];
      var d2 := DigitRun(frac);
      d1 + d2 > 0 && IsExponentPart(frac[d2..])
    else
      d1 > 0 && IsExponentPart(rest)
  }

  /** `0x`, `0o`, `0b` literals: the radix the prefix names, or 0 for none. */
  function PrefixRadix(t: string): nat
  {
    if |t| >= 2 && t[0] == '0' then
      if t[1] == 'x' || t[1] == 'X' then 16
      else if t[1] == 'o' || t[1] == 'O' then 8
      else if t[1] == 'b' || t[1] == 'B' then 2
      else 0
    else 0
  }

  /** `Number(s)` for a string: white space around the literal is ignored and empty text is zero. */
  function StringToNumber(s: string): Num
  {
    var t := Trim(s);
    if t == [] then Int(0)
    else if PrefixRadix(t) != 0 then PrefixedNumber(t, PrefixRadix(t))
    else DecimalNumber(t)
  }

  /** A `0x`, `0o` or `0b` literal; no sign is allowed before it. */
  function PrefixedNumber(t: string, radix: nat): Num
    requires |t| >= 2
  {
    var digits := t[2..];
    if digits != [] && AllDigitsOf(digits, radix) then Int(ParseNat(digits, radix)) else NaN
  }

  /** A decimal literal with an optional sign. */
  function DecimalNumber(t: string): Num
    requires t != []
  {
    var negative := t[0] == '-';
    var body := if t[0] == '+' || t[0] == '-' then t[1..] else t;
    if body != [] && AllDecimal(body) then SignedValue(negative, body)
    else if IsUnsignedDecimal(body) then FloatingPoint
    else NaN
  }

  function SignedValue(negative: bool, digits: string): Num
    requires AllDecimal(digits)
  {
    assert AllDigitsOf(digits, 10);
    var n: int := ParseNat(digits, 10);
    Int(if negative then -n else n)
  }

  /** The text of a non-negative integer reads back as that integer. */
  lemma NumberOfNatString(n: nat)
    ensures StringToNumber(NatToString(n, 10)) == Int(n)
  {
    DecimalNumeral(n);
    NumberOfDigits(NatToString(n, 10));
    ParseNatToString(n, 10);
  }

  /** A numeral in base 10 is made of decimal digits. */
  lemma DecimalNumeral(n: nat)
    ensures AllDecimal(NatToString(n, 10))
  {
    var s := NatToString(n, 10);
    forall i | 0 <= i < |s|
      ensures IsDecimalDigit(s[i])
    {
      assert IsDigitOf(s[i], 10);
    }
  }

  /** The text of any integer, `toString()`, reads back as that integer. */
  lemma NumberOfIntString(i: int)
    ensures StringToNumber(IntToString(i, 10)) == Int(i)
  {
    var s := IntToString(i, 10);
    if i < 0 {
      var n: nat := -i;
      assert s == "-" + NatToString(n, 10);
      NumberOfNegativeNatString(n);
      assert StringToNumber(s) == Int(-(n as int));
    } else {
      assert s == NatToString(i, 10);
      NumberOfNatString(i);
    }
  }

  /** An integer's text keeps its value when white space is added around it. */
  lemma NumberOfPaddedIntString(i: int, lead: string, trail: string)
    requires forall k :: 0 <= k < |lead| ==> IsWhiteSpace(lead[k])
    requires forall k :: 0 <= k < |trail| ==> IsWhiteSpace(trail[k])
    ensures StringToNumber(lead + IntToString(i, 10) + trail) == Int(i)
  {
    var s := IntToString(i, 10);
    var n: nat := if i < 0 then -i else i;
    DecimalNumeral(n);
    var d := NatToString(n, 10);
    assert s == (if i < 0 then "-" else "") + d;
    assert IsDecimalDigit(d[|d| - 1]);
    assert s[|s| - 1] == d[|d| - 1];
    assert s[0] == '-' || s[0] == d[0];
    TrimPadded(lead, s, trail);
    NumberIgnoresPadding(lead + s + trail);
    NumberOfIntString(i);
  }

  lemma NumberOfNegativeNatString(n: nat)
    ensures StringToNumber("-" + NatToString(n, 10)) == Int(-(n as int))
  {
    var d := NatToString(n, 10);
    var s := "-" + d;
    assert s[1..] == d;
    DecimalNumeral(n);
    NumberOfNegativeDigits(s);
    ParseNatToString(n, 10);
  }

  /** Digits only: their decimal value. */
  lemma NumberOfDigits(s: string)
    requires s != [] && AllDecimal(s)
    ensures AllDigitsOf(s, 10) && StringToNumber(s) == Int(ParseNat(s, 10))
  {
    NoWhiteSpaceTrim(s);
  }

  /** A minus sign and digits: the negated decimal value. */
  lemma NumberOfNegativeDigits(s: string)
    requires |s| >= 2 && s[0] == '-' && AllDecimal(s[1..])
    ensures StringToNumber(s) == SignedValue(true, s[1..])
  {
    assert s[|s| - 1] == s[1..][|s| - 2];
    TrimNoWhiteSpace(s);
    assert PrefixRadix(s) == 0;
  }

  lemma NoWhiteSpaceTrim(s: string)
    requires forall i :: 0 <= i < |s| ==> !IsWhiteSpace(s[i])
    ensures Trim(s) == s
  {
    TrimNoWhiteSpace(s);
  }

  /** White space around the text does not change the number. */
  lemma NumberIgnoresPadding(s: string)
    ensures StringToNumber(Trim(s)) == StringToNumber(s)
  {
    TrimIdempotent(s);
  }

  /** Text that starts with anything other than a digit, a sign, a point or `I` is not a
      number: `Number` gives NaN rather than failing. */
  lemma NumberOfNonNumeric(s: string)
    requires Trim(s) != []
    requires var c := Trim(s)[0]; !IsDecimalDigit(c) && c != '+' && c != '-' && c != '.' && c != 'I'
    ensures StringToNumber(s) == NaN
  {
    var t := Trim(s);
    assert DigitRun(t) == 0;
  }
}
