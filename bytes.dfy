/** The byte-array helpers (`Uint8Helpers`) and fixed-width integer decoding.

    A `Uint8Array` is a sequence of bytes; `slice` clamps its bounds to the array, so a
    range that runs past the end is cut short and one that starts past the end is empty. */
module Bytes {
  import opened Seqs
  import opened Text

  type byte = x: int | 0 <= x < 256

  /** `array.slice(from)`, with the bound clamped to the array. */
  function Rest(a: seq<byte>, from: nat): (r: seq<byte>)
    ensures |r| == Max(0, |a| - from)
    ensures forall i :: 0 <= i < |r| ==> r[i] == a[from + i]
  {
    if from >= |a| then [] else a[from..]
  }

  /** `splitArray(array, n)`: the first `n` bytes and the rest. */
  function SplitArray(a: seq<byte>, n: nat): (r: (seq<byte>, seq<byte>))
    ensures r.0 + r.1 == a
    ensures |r.0| == Min(n, |a|)
    ensures r.1 == Rest(a, n)
  {
    var k := Min(n, |a|);
    (a[..k], a[k..])
  }

  /** `getArrayRange(array, start, range)`: `array.slice(start, start + range)`. */
  function GetArrayRange(a: seq<byte>, start: nat, range: nat): (r: seq<byte>)
    ensures |r| == Max(0, Min(start + range, |a|) - start)
    ensures forall i :: 0 <= i < |r| ==> r[i] == a[start + i]
  {
    if start >= |a| then [] else a[start..Min(start + range, |a|)]
  }

  /** Two adjacent ranges make up the range that covers both. */
  lemma GetArrayRangeAdjacent(a: seq<byte>, start: nat, m: nat, n: nat)
    ensures GetArrayRange(a, start, m) + GetArrayRange(a, start + m, n) == GetArrayRange(a, start, m + n)
  {
  }

  /** A range of the rest of an array is the range shifted by the split point. */
  lemma GetArrayRangeOfRest(a: seq<byte>, from: nat, start: nat, range: nat)
    ensures GetArrayRange(Rest(a, from), start, range) == GetArrayRange(a, from + start, range)
  {
  }

  /** A range that fits inside the array has exactly the requested length. */
  lemma GetArrayRangeFull(a: seq<byte>, start: nat, range: nat)
    requires start + range <= |a|
    ensures GetArrayRange(a, start, range) == a[start..start + range]
  {
  }

  /** `arrayToText`: each byte becomes the character with that code (`String.fromCharCode`). */
  function ArrayToText(a: seq<byte>): (s: string)
    ensures |s| == |a|
    ensures forall i :: 0 <= i < |s| ==> s[i] as int == a[i]
  {
    seq(|a|, i requires 0 <= i < |a| => a[i] as char)
  }

  predicate IsLatin1(s: string)
  {
    forall i :: 0 <= i < |s| ==> s[i] as int < 256
  }

  /** The bytes of a text whose characters all have codes below 256. */
  function TextToArray(s: string): (a: seq<byte>)
    requires IsLatin1(s)
    ensures |a| == |s|
  {
    seq(|s|, i requires 0 <= i < |s| => s[i] as int as byte)
  }

  /** `arrayToText` loses nothing: the bytes are recovered from the text. */
  lemma TextArrayRoundTrip(a: seq<byte>)
    ensures IsLatin1(ArrayToText(a)) && TextToArray(ArrayToText(a)) == a
  {
  }

  lemma ArrayTextRoundTrip(s: string)
    requires IsLatin1(s)
    ensures ArrayToText(TextToArray(s)) == s
  {
  }

  /** `arrayToHex`: each byte as two lower-case hexadecimal digits. */
  function ArrayToHex(a: seq<byte>): (r: seq<string>)
    ensures |r| == |a|
    ensures forall i :: 0 <= i < |r| ==> r[i] == FixedDigits(a[i], 16, 2)
  {
    seq(|a|, i requires 0 <= i < |a| => PadStartHex(a[i]))
  }

  /** `byte.toString(16).padStart(2, '0')`. */
  function PadStartHex(b: byte): (s: string)
    ensures s == FixedDigits(b, 16, 2)
  {
    var digits := NatToString(b, 16);
    NatToStringLength(b, 16, 2);
    TakeRightPadded(b, 16, 1, 2);
    assert Pow(16, 2) == 256;
    PadStart(digits, 2, '0')
  }

  /** A number below `radix^k` has at most `k` digits. */
  lemma {:induction false} NatToStringLength(n: nat, radix: nat, k: nat)
    requires 2 <= radix <= 16 && 1 <= k && n < Pow(radix, k)
    ensures |NatToString(n, radix)| <= k
    decreases k
  {
    if n >= radix && k > 1 {
      QuotientBound(n, radix, k);
      NatToStringLength(n / radix, radix, k - 1);
    }
  }

  /** Padding on the left to `k` characters is keeping the last `k` of the text after
      one zero, when the text has at most `k` characters. */
  lemma PadStartTakeRight(s: string)
    requires 1 <= |s| <= 2
    ensures PadStart(s, 2, '0') == TakeRight(Zeros(1) + s, 2)
  {
    if |s| == 1 {
      assert PadStart(s, 2, '0') == ['0'] + s;
    }
  }

  // ----- fixed-width integers -----

  /** The unsigned value of bytes stored least significant first. */
  function UintLE(b: seq<byte>): nat
  {
    if b == [] then 0 else b[0] + 256 * UintLE(b[1..])
  }

  /** The unsigned value of bytes in the given byte order. */
  function Unsigned(b: seq<byte>, littleEndian: bool): nat
  {
    UintLE(if littleEndian then b else Reverse(b))
  }

  /** The two's-complement value of bytes in the given byte order. */
  function Signed(b: seq<byte>, littleEndian: bool): int
  {
    var u := Unsigned(b, littleEndian);
    var m := Pow(256, |b|);
    if 2 * u >= m then u - m else u
  }

  /** `n` bytes holding `v` modulo `256^n`, least significant first. */
  function EncodeLE(v: nat, n: nat): (r: seq<byte>)
    ensures |r| == n
  {
    if n == 0 then [] else [v % 256] + EncodeLE(v / 256, n - 1)
  }

  /** `n` bytes in either order. */
  function Encode(v: nat, n: nat, littleEndian: bool): (r: seq<byte>)
    ensures |r| == n
  {
    if littleEndian then EncodeLE(v, n) else Reverse(EncodeLE(v, n))
  }

  lemma {:induction false} UintLEBound(b: seq<byte>)
    ensures UintLE(b) < Pow(256, |b|)
  {
    if b != [] {
      UintLEBound(b[1..]);
    }
  }

  lemma UnsignedBound(b: seq<byte>, littleEndian: bool)
    ensures Unsigned(b, littleEndian) < Pow(256, |b|)
  {
    UintLEBound(if littleEndian then b else Reverse(b));
  }

  /** Decoding what was encoded gives the value back, when it fits. */
  lemma {:induction false} DecodeEncodeLE(v: nat, n: nat)
    requires v < Pow(256, n)
    ensures UintLE(EncodeLE(v, n)) == v
  {
    if n > 0 {
      var r := EncodeLE(v, n);
      assert r[1..] == EncodeLE(v / 256, n - 1);
      DecodeEncodeLE(v / 256, n - 1);
    }
  }

  lemma DecodeEncode(v: nat, n: nat, littleEndian: bool)
    requires v < Pow(256, n)
    ensures Unsigned(Encode(v, n, littleEndian), littleEndian) == v
  {
    DecodeEncodeLE(v, n);
    if !littleEndian {
      ReverseReverse(EncodeLE(v, n));
    }
  }

  /** Encoding what was decoded gives the bytes back. */
  lemma {:induction false} EncodeDecodeLE(b: seq<byte>)
    ensures EncodeLE(UintLE(b), |b|) == b
  {
    if b != [] {
      EncodeDecodeLE(b[1..]);
      var v := UintLE(b);
      assert v % 256 == b[0] && v / 256 == UintLE(b[1..]);
    }
  }

  lemma EncodeDecode(b: seq<byte>, littleEndian: bool)
    ensures Encode(Unsigned(b, littleEndian), |b|, littleEndian) == b
  {
    if littleEndian {
      EncodeDecodeLE(b);
    } else {
      EncodeDecodeLE(Reverse(b));
      ReverseReverse(b);
    }
  }

  /** The two's-complement value lies in the signed range of the width. */
  lemma SignedRange(b: seq<byte>, littleEndian: bool)
    ensures -(Pow(256, |b|) as int) <= 2 * Signed(b, littleEndian) < Pow(256, |b|)
  {
    UnsignedBound(b, littleEndian);
  }

  /** Signed and unsigned values agree below half the range and differ by `256^n` above. */
  lemma SignedUnsigned(b: seq<byte>, littleEndian: bool)
    ensures Signed(b, littleEndian) == Unsigned(b, littleEndian)
         || Signed(b, littleEndian) == Unsigned(b, littleEndian) - Pow(256, |b|)
    ensures Signed(b, littleEndian) < 0 <==> 2 * Unsigned(b, littleEndian) >= Pow(256, |b|)
  {
    UnsignedBound(b, littleEndian);
  }

  /** Two bytes: the first is the low byte in little-endian order, the high byte otherwise. */
  lemma Unsigned16(b: seq<byte>, littleEndian: bool)
    requires |b| == 2
    ensures Unsigned(b, littleEndian)
         == if littleEndian then b[0] as int + 256 * b[1] as int else b[1] as int + 256 * b[0] as int
  {
    if littleEndian {
      UintLEPair(b);
    } else {
      UintLEPair(Reverse(b));
    }
  }

  lemma UintLEPair(b: seq<byte>)
    requires |b| == 2
    ensures UintLE(b) == b[0] as int + 256 * b[1] as int
  {
    var t := b[1..];
    assert t[1..] == [];
    assert UintLE(t) == t[0] + 256 * UintLE(t[1..]);
    assert UintLE(b) == b[0] + 256 * UintLE(t);
  }

  /** Four bytes, least significant first. */
  lemma Unsigned32LE(b: seq<byte>)
    requires |b| == 4
    ensures Unsigned(b, true)
         == b[0] as int + 256 * b[1] as int + 65536 * b[2] as int + 16777216 * b[3] as int
  {
    var t := b[1..];
    UintLEPair(t[1..]);
    assert UintLE(t) == t[0] + 256 * UintLE(t[1..]);
    assert UintLE(b) == b[0] + 256 * UintLE(t);
  }
}
