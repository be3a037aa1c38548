/** `new TextDecoder().decode(bytes)`: UTF-8 decoding with the default options of the
    Encoding Standard (section 8.1 of the WHATWG Encoding Standard, "UTF-8 decoder").

    A leading byte order mark is dropped. A byte that cannot start a sequence, and a sequence
    that is cut short by a byte outside the allowed continuation range or by the end of the
    input, each become one U+FFFD; the byte that interrupted a sequence is then read again. */
module Utf8 {
  import opened Bytes

  const Replacement: char := '\U{FFFD}'

  /** The number of continuation bytes a leading byte announces (0 for ASCII and for bytes
      that cannot start a sequence). */
  function Needed(lead: byte): nat
  {
    if 0xC2 <= lead <= 0xDF then 1
    else if 0xE0 <= lead <= 0xEF then 2
    else if 0xF0 <= lead <= 0xF4 then 3
    else 0
  }

  /** The range the first continuation byte must fall in: narrower after E0, ED, F0 and F4,
      which excludes overlong forms, surrogates and values above U+10FFFF. */
  function FirstLower(lead: byte): byte
  {
    if lead == 0xE0 then 0xA0 else if lead == 0xF0 then 0x90 else 0x80
  }

  function FirstUpper(lead: byte): byte
  {
    if lead == 0xED then 0x9F else if lead == 0xF4 then 0x8F else 0xBF
  }

  /** How many of the `n` continuation bytes after the leading byte at the start of `b` are
      in range: the first within the lead's range, the others within 80..BF. */
  function ValidContinuations(b: seq<byte>, n: nat): (k: nat)
    requires |b| >= 1
    ensures k <= n && 1 + k <= |b|
  {
    ContinuationsFrom(b, n, 1)
  }

  function ContinuationsFrom(b: seq<byte>, n: nat, i: nat): (k: nat)
    requires 1 <= i <= |b|
    ensures i + k <= |b|
    ensures i > n ==> k == 0
    ensures i <= n ==> k <= n + 1 - i
    decreases |b| - i
  {
    if i > n || i == |b| then 0
    else
      var lo: byte := if i == 1 then FirstLower(b[0]) else 0x80;
      var hi: byte := if i == 1 then FirstUpper(b[0]) else 0xBF;
      if lo <= b[i] <= hi then 1 + ContinuationsFrom(b, n, i + 1) else 0
  }

  /** The code point of a complete sequence of `n` continuation bytes. */
  function CodePoint(b: seq<byte>, n: nat): (c: char)
    requires 1 <= n <= 3 && |b| > n && Needed(b[0]) == n
    requires FirstLower(b[0]) <= b[1] <= FirstUpper(b[0])
    requires forall i :: 2 <= i <= n ==> 0x80 <= b[i] <= 0xBF
  {
    var b0, b1 := b[0] as int, b[1] as int;
    if n == 1 then
      ((b0 - 0xC0) * 0x40 + (b1 - 0x80)) as char
    else if n == 2 then
      var v := (b0 - 0xE0) * 0x1000 + (b1 - 0x80) * 0x40 + (b[2] as int - 0x80);
      assert b0 == 0xED ==> v < 0xD800;
      v as char
    else
      ((b0 - 0xF0) * 0x40000 + (b1 - 0x80) * 0x1000 + (b[2] as int - 0x80) * 0x40 + (b[3] as int - 0x80)) as char
  }

  /** The characters of a byte sequence, without the byte-order-mark rule. */
  function Decode(b: seq<byte>): (s: string)
    ensures |s| <= |b|
    decreases |b|
  {
    if b == [] then []
    else if b[0] < 0x80 then [b[0] as char] + Decode(b[1..])
    else
      var n := Needed(b[0]);
      if n == 0 then [Replacement] + Decode(b[1..])
      else
        var k := ValidContinuations(b, n);
        if k == n then
          ContinuationsAll(b, n);
          [CodePoint(b, n)] + Decode(b[1 + n..])
        else [Replacement] + Decode(b[1 + k..])
  }

  /** When all `n` continuations are in range, each one is in its range. */
  lemma ContinuationsAll(b: seq<byte>, n: nat)
    requires |b| >= 1 && 1 <= n && ValidContinuations(b, n) == n
    ensures |b| > n
    ensures FirstLower(b[0]) <= b[1] <= FirstUpper(b[0])
    ensures forall i :: 2 <= i <= n ==> 0x80 <= b[i] <= 0xBF
  {
    ContinuationsFromAll(b, n, 1);
  }

  lemma {:induction false} ContinuationsFromAll(b: seq<byte>, n: nat, i: nat)
    requires 1 <= i <= |b| && i <= n + 1 && ContinuationsFrom(b, n, i) == n - (i - 1)
    ensures |b| > n
    ensures forall j :: i <= j <= n ==>
      (if j == 1 then FirstLower(b[0]) else 0x80) <= b[j] <= (if j == 1 then FirstUpper(b[0]) else 0xBF)
    decreases |b| - i
  {
    if i <= n {
      assert i < |b|;
      ContinuationsFromAll(b, n, i + 1);
    }
  }

  /** `TextDecoder.decode`: a leading byte order mark (EF BB BF) is not part of the text. */
  function DecodeToText(b: seq<byte>): (s: string)
    ensures |s| <= |b|
  {
    if |b| >= 3 && b[0] == 0xEF && b[1] == 0xBB && b[2] == 0xBF then Decode(b[3..]) else Decode(b)
  }

  predicate IsAscii(b: seq<byte>)
  {
    forall i :: 0 <= i < |b| ==> b[i] < 0x80
  }

  /** ASCII bytes decode one character per byte, with the byte's code: the text is the same
      as `String.fromCharCode` gives byte by byte. */
  lemma {:induction false} DecodeAscii(b: seq<byte>)
    requires IsAscii(b)
    ensures DecodeToText(b) == ArrayToText(b)
  {
    DecodeAsciiRaw(b);
  }

  lemma {:induction false} DecodeAsciiRaw(b: seq<byte>)
    requires IsAscii(b)
    ensures Decode(b) == ArrayToText(b)
  {
    if b != [] {
      DecodeAsciiRaw(b[1..]);
      assert ArrayToText(b) == [b[0] as char] + ArrayToText(b[1..]);
    }
  }

  /** A byte that can never occur in UTF-8 (C0, C1, F5..FF) or a stray continuation byte
      becomes one replacement character, and decoding goes on with the next byte. */
  lemma DecodeInvalidLead(b: seq<byte>)
    requires |b| >= 1 && b[0] >= 0x80 && Needed(b[0]) == 0
    ensures Decode(b) == [Replacement] + Decode(b[1..])
  {
  }

  // ----- the encoder, as the decoder's partner -----

  /** The UTF-8 bytes of one character: one to four bytes by the size of its code point. */
  function EncodeChar(c: char): (b: seq<byte>)
    ensures 1 <= |b| <= 4
  {
    var v := c as int;
    if v < 0x80 then [v]
    else if v < 0x800 then [0xC0 + v / 0x40, 0x80 + v % 0x40]
    else if v < 0x10000 then [0xE0 + v / 0x1000, 0x80 + (v / 0x40) % 0x40, 0x80 + v % 0x40]
    else [0xF0 + v / 0x40000, 0x80 + (v / 0x1000) % 0x40, 0x80 + (v / 0x40) % 0x40, 0x80 + v % 0x40]
  }

  function Encode(s: string): (b: seq<byte>)
    ensures |b| >= |s|
  {
    if s == [] then [] else EncodeChar(s[0]) + Encode(s[1..])
  }

  /** One encoded character, followed by anything, decodes to that character followed by
      the decoding of what follows. */
  lemma DecodeEncodeChar(c: char, rest: seq<byte>)
    ensures Decode(EncodeChar(c) + rest) == [c] + Decode(rest)
  {
    var e := EncodeChar(c);
    var b := e + rest;
    var v := c as int;
    if v < 0x80 {
      assert b[0] == e[0] && b[1..] == rest;
    } else {
      var n := |e| - 1;
      assert forall i :: 0 <= i <= n ==> b[i] == e[i];
      if v < 0x800 {
        TwoBytes(v, e);
      } else if v < 0x10000 {
        ThreeBytes(v, e);
      } else {
        FourBytes(v, e);
      }
      ContinuationsOfEncoded(b, n);
      ContinuationsAll(b, n);
      assert b[1 + n..] == rest;
    }
  }

  lemma TwoBytes(v: int, e: seq<byte>)
    requires 0x80 <= v < 0x800 && e == [0xC0 + v / 0x40, 0x80 + v % 0x40]
    ensures Needed(e[0]) == 1 && FirstLower(e[0]) <= e[1] <= FirstUpper(e[0])
    ensures (e[0] as int - 0xC0) * 0x40 + (e[1] as int - 0x80) == v
  {
  }

  lemma ThreeBytes(v: int, e: seq<byte>)
    requires 0x800 <= v < 0x10000 && !(0xD800 <= v < 0xE000)
    requires e == [0xE0 + v / 0x1000, 0x80 + (v / 0x40) % 0x40, 0x80 + v % 0x40]
    ensures Needed(e[0]) == 2 && FirstLower(e[0]) <= e[1] <= FirstUpper(e[0]) && 0x80 <= e[2] <= 0xBF
    ensures (e[0] as int - 0xE0) * 0x1000 + (e[1] as int - 0x80) * 0x40 + (e[2] as int - 0x80) == v
  {
    var q := v / 0x40;
    assert v == q * 0x40 + v % 0x40;
    assert q == (q / 0x40) * 0x40 + q % 0x40;
    assert v / 0x1000 == q / 0x40;
  }

  lemma FourBytes(v: int, e: seq<byte>)
    requires 0x10000 <= v < 0x110000
    requires e == [0xF0 + v / 0x40000, 0x80 + (v / 0x1000) % 0x40, 0x80 + (v / 0x40) % 0x40, 0x80 + v % 0x40]
    ensures Needed(e[0]) == 3 && FirstLower(e[0]) <= e[1] <= FirstUpper(e[0])
    ensures 0x80 <= e[2] <= 0xBF && 0x80 <= e[3] <= 0xBF
    ensures (e[0] as int - 0xF0) * 0x40000 + (e[1] as int - 0x80) * 0x1000 + (e[2] as int - 0x80) * 0x40 + (e[3] as int - 0x80) == v
  {
    var q := v / 0x40;
    var r := q / 0x40;
    assert v == q * 0x40 + v % 0x40;
    assert q == r * 0x40 + q % 0x40;
    assert r == (r / 0x40) * 0x40 + r % 0x40;
    assert v / 0x1000 == r;
    assert v / 0x40000 == r / 0x40;
  }

  /** The continuation bytes of an encoded character are all in range. */
  lemma ContinuationsOfEncoded(b: seq<byte>, n: nat)
    requires 1 <= n <= 3 && |b| > n && Needed(b[0]) == n
    requires FirstLower(b[0]) <= b[1] <= FirstUpper(b[0])
    requires forall i :: 2 <= i <= n ==> 0x80 <= b[i] <= 0xBF
    ensures ValidContinuations(b, n) == n
  {
    ContinuationsFromIn(b, n, 1);
  }

  lemma {:induction false} ContinuationsFromIn(b: seq<byte>, n: nat, i: nat)
    requires 1 <= i <= n + 1 && 1 <= n && |b| > n
    requires FirstLower(b[0]) <= b[1] <= FirstUpper(b[0])
    requires forall j :: 2 <= j <= n ==> 0x80 <= b[j] <= 0xBF
    ensures ContinuationsFrom(b, n, i) == n + 1 - i
    decreases n + 1 - i
  {
    if i <= n {
      ContinuationsFromIn(b, n, i + 1);
    }
  }

  /** Decoding undoes encoding. */
  lemma {:induction false} DecodeEncode(s: string)
    ensures Decode(Encode(s)) == s
  {
    if s != [] {
      DecodeEncode(s[1..]);
      DecodeEncodeChar(s[0], Encode(s[1..]));
    }
  }

  /** `TextDecoder` gives back the text that was encoded, unless that text starts with a
      byte order mark, which it drops. */
  lemma DecodeToTextEncode(s: string)
    ensures s != [] && s[0] == '\U{FEFF}' ==> DecodeToText(Encode(s)) == s[1..]
    ensures (s == [] || s[0] != '\U{FEFF}') ==> DecodeToText(Encode(s)) == s
  {
    DecodeEncode(s);
    if s != [] {
      var e := Encode(s);
      assert e == EncodeChar(s[0]) + Encode(s[1..]);
      if s[0] == '\U{FEFF}' {
        assert e[3..] == Encode(s[1..]);
        DecodeEncode(s[1..]);
      } else {
        assert !(|e| >= 3 && e[0] == 0xEF && e[1] == 0xBB && e[2] == 0xBF);
      }
    }
  }
}
