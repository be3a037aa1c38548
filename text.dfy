/** String operations with the semantics of the JavaScript and lodash calls the decoder
    makes: `trim`, lodash `trimEnd(s, chars)`, `split` on one character, `join`,
    `toLowerCase`/`toUpperCase` (ASCII letters), `Number.prototype.toString(radix)`,
    `parseInt(s, radix)` on digit strings, `padStart` and `repeat`. */
module Text {
  import opened Seqs

  /** The characters `String.prototype.trim` removes: ECMAScript WhiteSpace and
      LineTerminator code points. */
  predicate IsWhiteSpace(c: char)
  {
    c == '\t' || c == '\n' || c == '\U{000B}' || c == '\U{000C}' || c == '\r' || c == ' ' ||
    c == '\U{00A0}' || c == '\U{1680}' || ('\U{2000}' <= c <= '\U{200A}') ||
    c == '\U{2028}' || c == '\U{2029}' || c == '\U{202F}' || c == '\U{205F}' ||
    c == '\U{3000}' || c == '\U{FEFF}'
  }

  /** The number of white-space characters at the start of the text. */
  function LeadingWhiteSpace(s: string): (n: nat)
    ensures n <= |s|
    ensures forall i :: 0 <= i < n ==> IsWhiteSpace(s[i])
    ensures n == |s| || !IsWhiteSpace(s[n])
  {
    if s != [] && IsWhiteSpace(s[0]) then 1 + LeadingWhiteSpace(s[1..]) else 0
  }

  /** The number of white-space characters at the end of the text. */
  function TrailingWhiteSpace(s: string): (n: nat)
    ensures n <= |s|
    ensures forall i :: |s| - n <= i < |s| ==> IsWhiteSpace(s[i])
    ensures n == |s| || !IsWhiteSpace(s[|s| - 1 - n])
  {
    if s != [] && IsWhiteSpace(s[|s| - 1]) then 1 + TrailingWhiteSpace(s[..|s| - 1]) else 0
  }

  function TrimStart(s: string): string
  {
    s[LeadingWhiteSpace(s)..]
  }

  function TrimEnd(s: string): string
  {
    s[..|s| - TrailingWhiteSpace(s)]
  }

  /** `String.prototype.trim`: the text between the leading and the trailing white space. */
  function Trim(s: string): string
  {
    TrimEnd(TrimStart(s))
  }

  /** The trimmed text is part of the text, and it neither starts nor ends with white space. */
  lemma TrimEnds(s: string)
    ensures |Trim(s)| <= |s|
    ensures Trim(s) == [] || (!IsWhiteSpace(Trim(s)[0]) && !IsWhiteSpace(Trim(s)[|Trim(s)| - 1]))
  {
    var t := TrimStart(s);
    var r := TrimEnd(t);
    if r != [] {
      assert r[0] == t[0];
    }
  }

  /** Text without white space at either end is its own trim. */
  lemma TrimNoWhiteSpace(s: string)
    requires s == [] || (!IsWhiteSpace(s[0]) && !IsWhiteSpace(s[|s| - 1]))
    ensures Trim(s) == s
  {
  }

  lemma TrimIdempotent(s: string)
    ensures Trim(Trim(s)) == Trim(s)
  {
    TrimEnds(s);
    TrimNoWhiteSpace(Trim(s));
  }

  lemma {:induction false} LeadingWhiteSpacePadded(lead: string, s: string)
    requires forall i :: 0 <= i < |lead| ==> IsWhiteSpace(lead[i])
    requires s == [] || !IsWhiteSpace(s[0])
    ensures LeadingWhiteSpace(lead + s) == |lead|
    decreases |lead|
  {
    if lead == [] {
      assert lead + s == s;
    } else {
      assert (lead + s)[1..] == lead[1..] + s;
      LeadingWhiteSpacePadded(lead[1..], s);
    }
  }

  lemma {:induction false} TrailingWhiteSpacePadded(s: string, trail: string)
    requires forall i :: 0 <= i < |trail| ==> IsWhiteSpace(trail[i])
    requires s == [] || !IsWhiteSpace(s[|s| - 1])
    ensures TrailingWhiteSpace(s + trail) == |trail|
    decreases |trail|
  {
    if trail == [] {
      assert s + trail == s;
    } else {
      var t := s + trail;
      assert t[..|t| - 1] == s + trail[..|trail| - 1];
      TrailingWhiteSpacePadded(s, trail[..|trail| - 1]);
    }
  }

  /** Trimming removes white space added around text that has none at its ends. */
  lemma TrimPadded(lead: string, s: string, trail: string)
    requires forall i :: 0 <= i < |lead| ==> IsWhiteSpace(lead[i])
    requires forall i :: 0 <= i < |trail| ==> IsWhiteSpace(trail[i])
    requires s != [] && !IsWhiteSpace(s[0]) && !IsWhiteSpace(s[|s| - 1])
    ensures Trim(lead + s + trail) == s
  {
    var x := lead + s + trail;
    assert x == lead + (s + trail);
    LeadingWhiteSpacePadded(lead, s + trail);
    assert TrimStart(x) == s + trail;
    TrailingWhiteSpacePadded(s, trail);
    assert (s + trail)[..|s|] == s;
  }

  /** The number of trailing characters that are among `chars`. */
  function TrailingChars(s: string, chars: set<char>): (n: nat)
    ensures n <= |s|
    ensures forall i :: |s| - n <= i < |s| ==> s[i] in chars
    ensures n == |s| || s[|s| - 1 - n] !in chars
  {
    if s != [] && s[|s| - 1] in chars then 1 + TrailingChars(s[..|s| - 1], chars) else 0
  }

  /** lodash `trimEnd(s, chars)`: drops every trailing character that is one of `chars`. */
  function TrimEndChars(s: string, chars: set<char>): string
  {
    s[..|s| - TrailingChars(s, chars)]
  }

  /** Padding made only of the trimmed characters is removed, and nothing before it. */
  lemma {:induction false} TrailingCharsPadded(s: string, pad: string, chars: set<char>)
    requires forall i :: 0 <= i < |pad| ==> pad[i] in chars
    requires s == [] || s[|s| - 1] !in chars
    ensures TrailingChars(s + pad, chars) == |pad|
    decreases |pad|
  {
    if pad == [] {
      assert s + pad == s;
    } else {
      var t := s + pad;
      assert t[..|t| - 1] == s + pad[..|pad| - 1];
      TrailingCharsPadded(s, pad[..|pad| - 1], chars);
    }
  }

  lemma TrimEndCharsPadded(s: string, pad: string, chars: set<char>)
    requires forall i :: 0 <= i < |pad| ==> pad[i] in chars
    requires s == [] || s[|s| - 1] !in chars
    ensures TrimEndChars(s + pad, chars) == s
  {
    TrailingCharsPadded(s, pad, chars);
    assert (s + pad)[..|s|] == s;
  }

  /** `String.prototype.slice(from, to)` for non-negative bounds: both are clamped to the
      text, and a range whose end precedes its start is empty. */
  function Slice(s: string, from: nat, to: nat): (r: string)
    ensures |r| == Max(0, Min(to, |s|) - from)
    ensures forall i :: 0 <= i < |r| ==> r[i] == s[from + i]
  {
    var a := Min(from, |s|);
    var b := Min(to, |s|);
    if b <= a then [] else s[a..b]
  }

  /** `Array.prototype.join(sep)` on strings. */
  function Join(parts: seq<string>, sep: char): string
  {
    if parts == [] then []
    else if |parts| == 1 then parts[0]
    else parts[0] + [sep] + Join(parts[1..], sep)
  }

  /** A join ends with its last piece, preceded by a separator when there are several. */
  lemma {:induction false} JoinSuffix(parts: seq<string>, sep: char)
    requires |parts| >= 1
    ensures var j := Join(parts, sep); var last := parts[|parts| - 1];
      |j| >= |last| && j[|j| - |last|..] == last &&
      (|parts| >= 2 ==> |j| > |last| && j[|j| - |last| - 1] == sep)
  {
    if |parts| >= 2 {
      var tail := Join(parts[1..], sep);
      assert Join(parts, sep) == parts[0] + [sep] + tail;
      JoinSuffix(parts[1..], sep);
      if |parts| == 2 {
        assert tail == parts[1];
      }
    }
  }

  /** The first position of `c` in `s`, or `|s|`. */
  function IndexOf(s: string, c: char): (i: nat)
    ensures i <= |s|
    ensures c !in s[..i]
    ensures i < |s| ==> s[i] == c
  {
    if s == [] then 0
    else if s[0] == c then 0
    else
      var i := IndexOf(s[1..], c);
      assert s[..i + 1] == [s[0]] + s[1..][..i];
      i + 1
  }

  /** `String.prototype.split(sep)` with a one-character separator: the pieces between
      the separators, in order; there is one more piece than there are separators. */
  function Split(s: string, sep: char): (parts: seq<string>)
    ensures |parts| == multiset(s)[sep] + 1
    ensures forall i :: 0 <= i < |parts| ==> sep !in parts[i]
    ensures Join(parts, sep) == s
    decreases |s|
  {
    var i := IndexOf(s, sep);
    if i == |s| then
      assert s[..i] == s;
      [s]
    else
      var rest := Split(s[i + 1..], sep);
      SplitCons(s, sep, i, rest);
      [s[..i]] + rest
  }

  /** The piece before the first separator, followed by the pieces of what comes after it. */
  lemma SplitCons(s: string, sep: char, i: nat, rest: seq<string>)
    requires i < |s| && s[i] == sep && sep !in s[..i]
    requires |rest| == multiset(s[i + 1..])[sep] + 1
    requires forall k :: 0 <= k < |rest| ==> sep !in rest[k]
    requires Join(rest, sep) == s[i + 1..]
    ensures |[s[..i]] + rest| == multiset(s)[sep] + 1
    ensures forall k :: 0 <= k < |[s[..i]] + rest| ==> sep !in ([s[..i]] + rest)[k]
    ensures Join([s[..i]] + rest, sep) == s
  {
    var parts := [s[..i]] + rest;
    assert s == s[..i] + [sep] + s[i + 1..];
    assert multiset(s)[sep] == multiset(s[..i])[sep] + 1 + multiset(s[i + 1..])[sep] by {
      assert multiset(s) == multiset(s[..i]) + multiset([sep]) + multiset(s[i + 1..]);
    }
    assert multiset(s[..i])[sep] == 0;
    assert parts[1..] == rest;
    assert Join(parts, sep) == s[..i] + [sep] + Join(rest, sep);
  }

  /** Splitting undoes joining: a non-empty list of pieces none of which contains the
      separator is recovered from its join. */
  lemma {:induction false} SplitJoin(parts: seq<string>, sep: char)
    requires |parts| >= 1
    requires forall i :: 0 <= i < |parts| ==> sep !in parts[i]
    ensures Split(Join(parts, sep), sep) == parts
  {
    var s := Join(parts, sep);
    if |parts| == 1 {
      assert IndexOf(s, sep) == |s|;
    } else {
      var tail := Join(parts[1..], sep);
      assert s == parts[0] + [sep] + tail;
      IndexOfAfter(parts[0], sep, tail);
      assert s[..|parts[0]|] == parts[0];
      assert s[|parts[0]| + 1..] == tail;
      SplitJoin(parts[1..], sep);
    }
  }

  lemma {:induction false} IndexOfAfter(a: string, c: char, b: string)
    requires c !in a
    ensures IndexOf(a + [c] + b, c) == |a|
  {
    if a != [] {
      assert (a + [c] + b)[1..] == a[1..] + [c] + b;
      IndexOfAfter(a[1..], c, b);
    }
  }

  function LowerChar(c: char): char
  {
    if 'A' <= c <= 'Z' then (c as int + 32) as char else c
  }

  function UpperChar(c: char): char
  {
    if 'a' <= c <= 'z' then (c as int - 32) as char else c
  }

  /** `toLowerCase` on ASCII letters; other characters are kept. */
  function ToLower(s: string): (r: string)
    ensures |r| == |s|
  {
    seq(|s|, i requires 0 <= i < |s| => LowerChar(s[i]))
  }

  /** `toUpperCase` on ASCII letters; other characters are kept. */
  function ToUpper(s: string): (r: string)
    ensures |r| == |s|
  {
    seq(|s|, i requires 0 <= i < |s| => UpperChar(s[i]))
  }

  // ----- Numerals -----

  function Pow(b: nat, k: nat): nat
  {
    if k == 0 then 1 else b * Pow(b, k - 1)
  }

  /** The digit `d` in lower case, as `Number.prototype.toString` writes it. */
  function DigitChar(d: nat): (c: char)
    requires d < 16
  {
    if d < 10 then ('0' as int + d) as char else ('a' as int + d - 10) as char
  }

  predicate IsLowerHexDigit(c: char)
  {
    ('0' <= c <= '9') || ('a' <= c <= 'f')
  }

  /** The value of a hexadecimal digit of either case, as `parseInt` reads it. */
  function DigitValue(c: char): nat
  {
    if '0' <= c <= '9' then c as int - '0' as int
    else if 'a' <= c <= 'f' then c as int - 'a' as int + 10
    else if 'A' <= c <= 'F' then c as int - 'A' as int + 10
    else 16
  }

  predicate IsDigitOf(c: char, radix: nat)
  {
    DigitValue(c) < radix
  }

  predicate AllDigitsOf(s: string, radix: nat)
  {
    forall i :: 0 <= i < |s| ==> IsDigitOf(s[i], radix)
  }

  lemma DigitCharValue(d: nat)
    requires d < 16
    ensures DigitValue(DigitChar(d)) == d && IsLowerHexDigit(DigitChar(d))
  {
  }

  predicate IsDecimalDigit(c: char)
  {
    '0' <= c <= '9'
  }

  /** The length of the run of decimal digits at the start of `s`. */
  function DigitRun(s: string): (n: nat)
    ensures n <= |s|
    ensures forall i :: 0 <= i < n ==> IsDecimalDigit(s[i])
    ensures n < |s| ==> !IsDecimalDigit(s[n])
  {
    if s != [] && IsDecimalDigit(s[0]) then 1 + DigitRun(s[1..]) else 0
  }

  /** The digit run of digits followed by a non-digit is the digits. */
  lemma {:induction false} DigitRunOf(digits: string, rest: string)
    requires forall i :: 0 <= i < |digits| ==> IsDecimalDigit(digits[i])
    requires rest == [] || !IsDecimalDigit(rest[0])
    ensures DigitRun(digits + rest) == |digits|
    decreases |digits|
  {
    if digits != [] {
      assert (digits + rest)[1..] == digits[1..] + rest;
      DigitRunOf(digits[1..], rest);
    }
  }

  /** `Number.prototype.toString(radix)` for a non-negative integer. */
  function NatToString(n: nat, radix: nat): (s: string)
    requires 2 <= radix <= 16
    ensures |s| >= 1
    ensures forall i :: 0 <= i < |s| ==> IsLowerHexDigit(s[i]) && IsDigitOf(s[i], radix)
    decreases n
  {
    if n < radix then
      DigitCharValue(n);
      [DigitChar(n)]
    else
      DivLess(n, radix);
      var d := n % radix;
      ModBound(n, radix);
      DigitCharValue(d);
      NatToString(n / radix, radix) + [DigitChar(d)]
  }

  /** `Number.prototype.toString(radix)` for any integer: a minus sign, then the magnitude. */
  function IntToString(i: int, radix: nat): (s: string)
    requires 2 <= radix <= 16
    ensures |s| >= 1
  {
    if i < 0 then "-" + NatToString(-i, radix) else NatToString(i, radix)
  }

  /** `parseInt(s, radix)` on a non-empty string made only of digits of that radix. */
  function ParseNat(s: string, radix: nat): nat
    requires AllDigitsOf(s, radix)
  {
    if s == [] then 0 else radix * ParseNat(s[..|s| - 1], radix) + DigitValue(s[|s| - 1])
  }

  /** Reading a numeral back gives the number that was written. */
  lemma {:induction false} ParseNatToString(n: nat, radix: nat)
    requires 2 <= radix <= 16
    ensures ParseNat(NatToString(n, radix), radix) == n
    decreases n
  {
    if n < radix {
      DigitCharValue(n);
      ParseNatSnoc([], DigitChar(n), radix);
      assert [] + [DigitChar(n)] == NatToString(n, radix);
    } else {
      var q, r := n / radix, n % radix;
      var p := NatToString(q, radix);
      ModBound(n, radix);
      DigitCharValue(r);
      DivLess(n, radix);
      ParseNatToString(q, radix);
      ParseNatSnoc(p, DigitChar(r), radix);
      assert NatToString(n, radix) == p + [DigitChar(r)];
      assert ParseNat(p + [DigitChar(r)], radix) == radix * q + r;
      DivMod(n, radix);
    }
  }

  lemma ModBound(n: nat, radix: nat)
    requires radix > 0
    ensures n % radix < radix
  {
  }

  /** Appending a digit multiplies by the radix and adds the digit's value. */
  lemma ParseNatSnoc(p: string, d: char, radix: nat)
    requires AllDigitsOf(p, radix) && IsDigitOf(d, radix)
    ensures AllDigitsOf(p + [d], radix)
    ensures ParseNat(p + [d], radix) == radix * ParseNat(p, radix) + DigitValue(d)
  {
    assert (p + [d])[..|p|] == p;
  }

  lemma DivLess(n: nat, radix: nat)
    requires 2 <= radix && 1 <= n
    ensures n / radix < n
  {
    var q := n / radix;
    DivMod(n, radix);
    if q >= n {
      MulMono(radix, n, q);
      MulMono(n, 2, radix);
    }
  }

  lemma DivMod(n: nat, radix: nat)
    requires radix > 0
    ensures n == radix * (n / radix) + n % radix
  {
  }

  /** Different numbers have different numerals. */
  lemma NatToStringInjective(m: nat, n: nat, radix: nat)
    requires 2 <= radix <= 16
    ensures NatToString(m, radix) == NatToString(n, radix) ==> m == n
  {
    ParseNatToString(m, radix);
    ParseNatToString(n, radix);
  }

  /** The `k` lowest digits of `n`, with leading zeros. */
  function FixedDigits(n: nat, radix: nat, k: nat): (s: string)
    requires 2 <= radix <= 16
    ensures |s| == k
    ensures forall i :: 0 <= i < |s| ==> IsLowerHexDigit(s[i]) && IsDigitOf(s[i], radix)
  {
    if k == 0 then [] else FixedDigits(n / radix, radix, k - 1) + [DigitChar(n % radix)]
  }

  function Zeros(j: nat): (s: string)
    ensures |s| == j
  {
    seq(j, _ => '0')
  }

  lemma {:induction false} FixedDigitsOfZero(radix: nat, k: nat)
    requires 2 <= radix <= 16
    ensures FixedDigits(0, radix, k) == Zeros(k)
  {
    if k > 0 {
      FixedDigitsOfZero(radix, k - 1);
    }
  }

  lemma {:induction false} ParseFixedDigits(n: nat, radix: nat, k: nat)
    requires 2 <= radix <= 16
    requires n < Pow(radix, k)
    ensures ParseNat(FixedDigits(n, radix, k), radix) == n
    decreases k
  {
    if k > 0 {
      QuotientBound(n, radix, k);
      var p := FixedDigits(n / radix, radix, k - 1);
      DigitCharValue(n % radix);
      ParseNatSnoc(p, DigitChar(n % radix), radix);
      ParseFixedDigits(n / radix, radix, k - 1);
      DivMod(n, radix);
    }
  }

  lemma QuotientBound(n: nat, radix: nat, k: nat)
    requires 2 <= radix && k > 0 && n < Pow(radix, k)
    ensures n / radix < Pow(radix, k - 1)
  {
    var q := n / radix;
    DivMod(n, radix);
    if q >= Pow(radix, k - 1) {
      MulMono(radix, Pow(radix, k - 1), q);
    }
  }

  lemma MulMono(a: nat, b: nat, c: nat)
    requires b <= c
    ensures a * b <= a * c
  {
  }

  lemma TakeRightSnoc<T>(s: seq<T>, x: T, k: nat)
    requires k >= 1
    ensures TakeRight(s + [x], k) == TakeRight(s, k - 1) + [x]
  {
  }

  /** Padding a numeral with `j` zeros on the left and keeping its last `k` characters, for
      `k` at most `j + 1`, gives the `k` lowest digits with leading zeros
      (`takeRight('0000' + n.toString(16), 4)`, `('0' + n.toString(16)).slice(-2)`). */
  lemma {:induction false} TakeRightPadded(n: nat, radix: nat, j: nat, k: nat)
    requires 2 <= radix <= 16
    requires 1 <= k <= j + 1
    ensures TakeRight(Zeros(j) + NatToString(n, radix), k) == FixedDigits(n, radix, k)
    decreases n
  {
    if n < radix {
      SmallDivMod(n, radix);
      FixedDigitsOfZero(radix, k - 1);
      TakeRightSnoc(Zeros(j), DigitChar(n), k);
      assert TakeRight(Zeros(j), k - 1) == Zeros(k - 1);
      assert FixedDigits(n, radix, k) == Zeros(k - 1) + [DigitChar(n)];
    } else {
      var d := DigitChar(n % radix);
      var x := Zeros(j) + NatToString(n / radix, radix);
      assert Zeros(j) + NatToString(n, radix) == x + [d];
      TakeRightSnoc(x, d, k);
      assert FixedDigits(n, radix, k) == FixedDigits(n / radix, radix, k - 1) + [d];
      if k > 1 {
        DivLess(n, radix);
        TakeRightPadded(n / radix, radix, j, k - 1);
      } else {
        assert TakeRight(x, 0) == [];
      }
    }
  }

  lemma SmallDivMod(n: nat, radix: nat)
    requires n < radix
    ensures n / radix == 0 && n % radix == n
  {
  }

  /** Lower-case hexadecimal text is unchanged by `toLowerCase`. */
  lemma ToLowerHex(s: string)
    requires forall i :: 0 <= i < |s| ==> IsLowerHexDigit(s[i])
    ensures ToLower(s) == s
  {
  }

  /** lodash `padStart(s, n, c)`. */
  function PadStart(s: string, n: nat, c: char): (r: string)
    ensures |r| == Max(n, |s|)
    ensures r[|r| - |s|..] == s
  {
    if |s| >= n then s else seq(n - |s|, _ => c) + s
  }

  /** `String.prototype.repeat(k)`. */
  function Repeat(s: string, k: nat): (r: string)
    ensures |r| == k * |s|
  {
    if k == 0 then [] else s + Repeat(s, k - 1)
  }
}
