/** `getPixelData`: the raw bytes of the Pixel Data element are written out as hexadecimal
    text, cut into samples of the allocated width, byte-swapped when the high bit is the last
    stored bit, read as unsigned or 16-bit signed integers, rescaled, fitted into the display
    window, inverted for MONOCHROME1, and formatted as grey `#RRGGBB` colour tokens.

    Each stage is written the way the decoder computes it (on hexadecimal text), and is proved
    equal to a definition on the bytes of a sample: the value of the sample in the byte order
    the swap selects, read as unsigned or as a 16-bit two's-complement number. */
module PixelData {
  import opened Wrappers
  import opened Seqs
  import opened Text
  import opened Bytes
  import opened Bufferpack
  import opened JsNumber
  import opened MultiString
  import opened Helpers
  import opened Dicom
  import opened TagHelpers

  // ----- samples -----

  /** The bytes of one sample: `bitsAllocated / 8` rounded up, or none at all when the
      allocation is not positive. */
  function BytesPerSample(bitsAllocated: int): (k: nat)
    ensures k == 0 <==> bitsAllocated <= 0
    ensures k > 0 ==> 8 * (k - 1) < bitsAllocated <= 8 * k
  {
    if bitsAllocated <= 0 then 0 else (bitsAllocated + 7) / 8
  }

  /** `ceil(bitsAllocated / 8) * 2` as lodash `chunk` uses it: a size below one gives no
      chunks. */
  function HexPerSample(bitsAllocated: int): (n: nat)
    ensures n == 2 * BytesPerSample(bitsAllocated)
  {
    var hexAllocated := ((bitsAllocated + 7) / 8) * 2;
    if hexAllocated < 0 then 0 else hexAllocated
  }

  /** The hexadecimal text of the pixel bytes, two digits per byte, cut into samples. */
  function HexSamples(raw: seq<byte>, bitsAllocated: int): seq<string>
  {
    Chunk(HexOfBytes(raw), HexPerSample(bitsAllocated))
  }

  /** There are `ceil(2 * |raw| / hexAllocated)` samples, and none when the allocation is not
      positive. */
  lemma HexSampleCount(raw: seq<byte>, bitsAllocated: int)
    ensures var n := HexPerSample(bitsAllocated);
      |HexSamples(raw, bitsAllocated)| == if n > 0 then (2 * |raw| + n - 1) / n else 0
  {
    HexOfBytesLength(raw);
    if HexPerSample(bitsAllocated) > 0 {
      ChunkCount(HexOfBytes(raw), HexPerSample(bitsAllocated));
    }
  }

  /** The hexadecimal text of each group of bytes. */
  function HexOfEach(groups: seq<seq<byte>>): (r: seq<string>)
    ensures |r| == |groups|
    ensures forall i :: 0 <= i < |r| ==> r[i] == HexOfBytes(groups[i])
  {
    seq(|groups|, i requires 0 <= i < |groups| => HexOfBytes(groups[i]))
  }

  /** Cutting the text into samples is writing out each group of `BytesPerSample` bytes: the
      `i`-th sample is the text of bytes `i * k` up to `(i + 1) * k`, the last one possibly
      shorter. */
  lemma {:induction false} HexSamplesOfBytes(raw: seq<byte>, bitsAllocated: int)
    ensures HexSamples(raw, bitsAllocated) == HexOfEach(Chunk(raw, BytesPerSample(bitsAllocated)))
    decreases |raw|
  {
    var k := BytesPerSample(bitsAllocated);
    var hex := HexOfBytes(raw);
    HexOfBytesLength(raw);
    if k > 0 && raw != [] {
      if |raw| <= k {
        assert Chunk(raw, k) == [raw];
      } else {
        var head, tail := raw[..k], raw[k..];
        assert raw == head + tail;
        HexOfBytesAppend(head, tail);
        HexOfBytesLength(head);
        assert hex[..2 * k] == HexOfBytes(head);
        assert hex[2 * k..] == HexOfBytes(tail);
        HexSamplesOfBytes(tail, bitsAllocated);
        assert Chunk(raw, k) == [head] + Chunk(tail, k);
        assert HexSamples(raw, bitsAllocated) == [HexOfBytes(head)] + HexSamples(tail, bitsAllocated);
      }
    }
  }

  lemma HexOfBytesAppend(a: seq<byte>, b: seq<byte>)
    ensures HexOfBytes(a + b) == HexOfBytes(a) + HexOfBytes(b)
  {
    MapAppend(ByteToHex, a, b);
    FlattenAppend(Hex2(a), Hex2(b));
  }

  // ----- reading hexadecimal text -----

  /** Appending digits shifts the value by one radix power per digit. */
  lemma {:induction false} ParseNatAppend(p: string, q: string, radix: nat)
    requires AllDigitsOf(p, radix) && AllDigitsOf(q, radix)
    ensures AllDigitsOf(p + q, radix)
    ensures ParseNat(p + q, radix) == Pow(radix, |q|) * ParseNat(p, radix) + ParseNat(q, radix)
    decreases |q|
  {
    if q == [] {
      assert p + q == p;
    } else {
      var q' := q[..|q| - 1];
      var d := q[|q| - 1];
      assert q == q' + [d];
      assert p + q == (p + q') + [d];
      ParseNatAppend(p, q', radix);
      ParseNatSnoc(p + q', d, radix);
      ParseNatSnoc(q', d, radix);
      ShiftStep(radix, Pow(radix, |q'|), ParseNat(p, radix), ParseNat(q', radix), DigitValue(d));
    }
  }

  lemma ShiftStep(radix: nat, w: nat, a: nat, b: nat, d: nat)
    ensures radix * (w * a + b) + d == (radix * w) * a + (radix * b + d)
  {
  }

  /** `parseInt(hex, 16)` of the text of some bytes is their big-endian value. */
  lemma {:induction false} ParseHexOfBytes(b: seq<byte>)
    ensures AllDigitsOf(HexOfBytes(b), 16)
    ensures ParseNat(HexOfBytes(b), 16) == Unsigned(b, false)
    decreases |b|
  {
    if b == [] {
      assert HexOfBytes(b) == [];
    } else {
      var init, x := b[..|b| - 1], b[|b| - 1];
      assert b == init + [x];
      HexOfBytesAppend(init, [x]);
      assert HexOfBytes([x]) == NumberToHex(x) by {
        assert Hex2([x]) == [NumberToHex(x)];
        assert Flatten(Hex2([x])[1..]) == [];
      }
      ParseHexOfBytes(init);
      NumberToHexRoundTrip(x);
      ParseNatAppend(HexOfBytes(init), NumberToHex(x), 16);
      assert Pow(16, 2) == 256;
      ReverseSnoc(init, x);
    }
  }

  /** The text of some bytes, swapped or not, is made of hexadecimal digits and reads as
      the value of the bytes in the order the swap selects: little-endian when swapped. */
  lemma SampleText(b: seq<byte>, swap: bool)
    ensures var hex := if swap then LittleEndianToBigEndian(HexOfBytes(b)) else HexOfBytes(b);
      AllDigitsOf(hex, 16) && ParseNat(hex, 16) == Unsigned(b, swap)
  {
    if swap {
      LittleEndianToBigEndianOfBytes(b);
      ParseHexOfBytes(Reverse(b));
      ReverseReverse(b);
    } else {
      ParseHexOfBytes(b);
    }
  }

  // ----- signed samples -----

  /** `map(bits, b => b === '0' ? '1' : '0')`. */
  function Complement(bits: string): (r: string)
    ensures |r| == |bits|
    ensures AllDigitsOf(r, 2)
  {
    seq(|bits|, i requires 0 <= i < |bits| => if bits[i] == '0' then '1' else '0')
  }

  /** `pixelDataToSignedInt` on one sample, as the decoder computes it: the binary numeral of
      the value; a numeral of sixteen digits starting with `1` is complemented, read back, and
      negated minus one, with a zero result (which cannot occur) replaced by -32768. */
  function SignedSample(hex: string): int
    requires AllDigitsOf(hex, 16)
  {
    var bits := NatToString(ParseNat(hex, 16), 2);
    if bits[0] == '1' && |bits| == 16 then
      var value := -(ParseNat(Complement(bits), 2) + 1);
      if value == 0 then -32768 else value
    else ParseNat(bits, 2)
  }

  /** The 16-bit two's-complement reading of a value: a value with bit 15 as its top bit
      loses 2^16, every other value is kept. */
  function TwosComplement16(n: nat): int
  {
    if 32768 <= n < 65536 then n - 65536 else n
  }

  /** Complementing the binary digits reads as the complement of the value. */
  lemma {:induction false} ComplementValue(bits: string)
    requires AllDigitsOf(bits, 2)
    ensures ParseNat(Complement(bits), 2) + ParseNat(bits, 2) == Pow(2, |bits|) - 1
    decreases |bits|
  {
    if bits != [] {
      var init := bits[..|bits| - 1];
      assert Complement(bits)[..|bits| - 1] == Complement(init);
      ComplementValue(init);
    }
  }

  /** A numeral of a positive number does not start with zero. */
  lemma {:induction false} NatToStringHead(n: nat, radix: nat)
    requires 2 <= radix <= 16 && n >= 1
    ensures NatToString(n, radix)[0] != '0'
    decreases n
  {
    if n >= radix {
      DivLess(n, radix);
      assert n / radix >= 1;
      NatToStringHead(n / radix, radix);
    }
  }

  /** A number of at least `radix^(k-1)` has at least `k` digits. */
  lemma {:induction false} NatToStringLong(n: nat, radix: nat, k: nat)
    requires 2 <= radix <= 16 && 1 <= k && Pow(radix, k - 1) <= n
    ensures |NatToString(n, radix)| >= k
    decreases k
  {
    if k > 1 {
      assert Pow(radix, k - 1) == radix * Pow(radix, k - 2);
      assert n >= radix by {
        PowPositive(radix, k - 2);
        MulMono(radix, 1, Pow(radix, k - 2));
      }
      DivMod(n, radix);
      if n / radix < Pow(radix, k - 2) {
        MulMono(radix, n / radix + 1, Pow(radix, k - 2));
      }
      NatToStringLong(n / radix, radix, k - 1);
    }
  }

  lemma {:induction false} PowPositive(b: nat, k: nat)
    requires b >= 1
    ensures Pow(b, k) >= 1
  {
    if k > 0 {
      PowPositive(b, k - 1);
      MulMono(b, 1, Pow(b, k - 1));
    }
  }

  lemma PowersOfTwo()
    ensures Pow(2, 15) == 32768 && Pow(2, 16) == 65536 && Pow(2, 17) == 131072
  {
    assert Pow(2, 1) == 2;
    assert Pow(2, 2) == 4;
    assert Pow(2, 3) == 8;
    assert Pow(2, 4) == 16;
    assert Pow(2, 5) == 32;
    assert Pow(2, 6) == 64;
    assert Pow(2, 7) == 128;
    assert Pow(2, 8) == 256;
    assert Pow(2, 9) == 512;
    assert Pow(2, 10) == 1024;
    assert Pow(2, 11) == 2048;
    assert Pow(2, 12) == 4096;
    assert Pow(2, 13) == 8192;
    assert Pow(2, 14) == 16384;
    assert Pow(2, 15) == 32768;
    assert Pow(2, 16) == 65536;
    assert Pow(2, 17) == 131072;
  }

  /** The binary numeral has sixteen digits and starts with `1` exactly for the values with
      bit 15 as their top bit. */
  lemma SixteenBits(n: nat)
    ensures var bits := NatToString(n, 2);
      (bits[0] == '1' && |bits| == 16) <==> 32768 <= n < 65536
  {
    var bits := NatToString(n, 2);
    PowersOfTwo();
    if 32768 <= n < 65536 {
      NatToStringLength(n, 2, 16);
      NatToStringLong(n, 2, 16);
      NatToStringHead(n, 2);
      assert IsDigitOf(bits[0], 2);
    } else if n < 32768 {
      if n == 0 {
        assert bits == "0";
      } else {
        NatToStringLength(n, 2, 15);
      }
    } else {
      NatToStringLong(n, 2, 17);
    }
  }

  /** `pixelDataToSignedInt` reads a sample as a 16-bit two's-complement number; the branch
      that maps zero to -32768 is never taken. */
  lemma SignedSampleValue(hex: string)
    requires AllDigitsOf(hex, 16)
    ensures SignedSample(hex) == TwosComplement16(ParseNat(hex, 16))
    ensures -32768 <= SignedSample(hex) < 0 <==> 32768 <= ParseNat(hex, 16) < 65536
  {
    var n := ParseNat(hex, 16);
    var bits := NatToString(n, 2);
    ParseNatToString(n, 2);
    SixteenBits(n);
    if 32768 <= n < 65536 {
      ComplementValue(bits);
      PowersOfTwo();
    }
  }

  /** On two bytes the reading is the two's-complement value of the bytes. */
  lemma TwosComplementOfPair(b: seq<byte>, littleEndian: bool)
    requires |b| == 2
    ensures TwosComplement16(Unsigned(b, littleEndian)) == Signed(b, littleEndian)
  {
    UnsignedBound(b, littleEndian);
    assert Pow(256, 2) == 65536;
  }

  // ----- integers of the samples -----

  /** The integer a sample's bytes hold: their value in the order the swap selects, read as
      a 16-bit two's-complement number unless the representation is unsigned. */
  function SampleValue(b: seq<byte>, swap: bool, unsigned: bool): int
  {
    var u := Unsigned(b, swap);
    if unsigned then u else TwosComplement16(u)
  }

  predicate HexDigitSamples(samples: seq<string>)
  {
    forall i :: 0 <= i < |samples| ==> AllDigitsOf(samples[i], 16)
  }

  /** `map(samples, littleEndianToBigEndian)` when the swap is selected. */
  function Ordered(samples: seq<string>, swap: bool): (r: seq<string>)
    ensures |r| == |samples|
  {
    if swap then seq(|samples|, i requires 0 <= i < |samples| => LittleEndianToBigEndian(samples[i]))
    else samples
  }

  /** `parseInt(hex, 16)` of each sample, or `pixelDataToSignedInt` of all of them. */
  function Integers(samples: seq<string>, unsigned: bool): (r: seq<int>)
    requires HexDigitSamples(samples)
    ensures |r| == |samples|
  {
    if unsigned then seq(|samples|, i requires 0 <= i < |samples| => ParseNat(samples[i], 16))
    else seq(|samples|, i requires 0 <= i < |samples| => SignedSample(samples[i]))
  }

  /** The samples, swapped or not, are hexadecimal text and read as the bytes of each group
      in the order the swap selects. */
  lemma OrderedSamples(raw: seq<byte>, bitsAllocated: int, swap: bool)
    ensures var groups := Chunk(raw, BytesPerSample(bitsAllocated));
      var samples := Ordered(HexSamples(raw, bitsAllocated), swap);
      |samples| == |groups| && HexDigitSamples(samples) &&
      forall i :: 0 <= i < |samples| ==> ParseNat(samples[i], 16) == Unsigned(groups[i], swap)
  {
    var groups := Chunk(raw, BytesPerSample(bitsAllocated));
    var samples := Ordered(HexSamples(raw, bitsAllocated), swap);
    HexSamplesOfBytes(raw, bitsAllocated);
    forall i | 0 <= i < |samples|
      ensures AllDigitsOf(samples[i], 16) && ParseNat(samples[i], 16) == Unsigned(groups[i], swap)
    {
      SampleText(groups[i], swap);
    }
  }

  /** The integers read from the text are the values of the byte groups. */
  lemma IntegersOfBytes(raw: seq<byte>, bitsAllocated: int, swap: bool, unsigned: bool)
    ensures var groups := Chunk(raw, BytesPerSample(bitsAllocated));
      var samples := Ordered(HexSamples(raw, bitsAllocated), swap);
      HexDigitSamples(samples) && |Integers(samples, unsigned)| == |groups| &&
      forall i :: 0 <= i < |groups| ==> Integers(samples, unsigned)[i] == SampleValue(groups[i], swap, unsigned)
  {
    var samples := Ordered(HexSamples(raw, bitsAllocated), swap);
    OrderedSamples(raw, bitsAllocated, swap);
    if !unsigned {
      forall i | 0 <= i < |samples| ensures SignedSample(samples[i]) == TwosComplement16(ParseNat(samples[i], 16)) {
        SignedSampleValue(samples[i]);
      }
    }
  }

  // ----- rescale, window and inversion -----

  /** `rescaleSlope * v + rescaleIntercept` on each value. */
  function Rescale(values: seq<int>, slope: int, intercept: int): (r: seq<int>)
    ensures |r| == |values|
  {
    seq(|values|, i requires 0 <= i < |values| => slope * values[i] + intercept)
  }

  /** The defaults, slope 1 and intercept 0, leave the values as they are. */
  lemma RescaleDefaults(values: seq<int>)
    ensures Rescale(values, 1, 0) == values
  {
  }

  function Abs(x: real): real
  {
    if x < 0.0 then -x else x
  }

  function RealMin(a: real, b: real): real
  {
    if a <= b then a else b
  }

  function RealMax(a: real, b: real): real
  {
    if a >= b then a else b
  }

  function WindowMin(center: int, width: int): real
  {
    center as real - width as real / 2.0
  }

  function WindowMax(center: int, width: int): real
  {
    center as real + width as real / 2.0
  }

  /** `255 / (|min| + |max|)`; the sum is positive because `min + max` is twice the
      centre. */
  function Scaling(center: int, width: int): (s: real)
    requires center != 0
    ensures s > 0.0
  {
    255.0 / (Abs(WindowMin(center, width)) + Abs(WindowMax(center, width)))
  }

  /** What `adjustToWindow` gives for one value, in exact arithmetic: the value clamped into
      `[min, max]`, shifted up by `|min|` when `min` is negative, scaled, and rounded down. */
  function WindowLevel(v: int, center: int, width: int): int
    requires center != 0
  {
    ScaledLevel(Shifted(v, center, width), Scaling(center, width))
  }

  /** A shifted value scaled and rounded down. */
  function ScaledLevel(p: real, s: real): int
  {
    (p * s).Floor
  }

  /** The value clamped into the window, shifted up by `|min|` when `min` is negative. */
  function Shifted(v: int, center: int, width: int): real
  {
    var lo, hi := WindowMin(center, width), WindowMax(center, width);
    var inRange := RealMin(RealMax(v as real, lo), hi);
    if lo < 0.0 then inRange + Abs(lo) else inRange
  }

  lemma ScaledBounds(p: real, d: real)
    requires 0.0 <= p <= d && d > 0.0
    ensures 0.0 <= p * (255.0 / d) <= 255.0
  {
    var s := 255.0 / d;
    assert d * s == 255.0;
    assert p * s <= d * s;
  }

  /** For a window of non-negative width every value is brought into 0 to 255. */
  lemma WindowLevelRange(v: int, center: int, width: int)
    requires center != 0 && width >= 0
    ensures 0 <= WindowLevel(v, center, width) <= 255
  {
    var lo, hi := WindowMin(center, width), WindowMax(center, width);
    ScaledBounds(Shifted(v, center, width), Abs(lo) + Abs(hi));
  }

  /** A larger value never gets a darker level. */
  lemma WindowLevelMonotone(v: int, w: int, center: int, width: int)
    requires center != 0 && v <= w
    ensures WindowLevel(v, center, width) <= WindowLevel(w, center, width)
  {
    ShiftedMonotone(v, w, center, width);
    ScaledLevelMonotone(Shifted(v, center, width), Shifted(w, center, width), Scaling(center, width));
  }

  lemma ScaledLevelMonotone(a: real, b: real, s: real)
    requires a <= b && s > 0.0
    ensures ScaledLevel(a, s) <= ScaledLevel(b, s)
  {
    ScaleMonotone(a, b, s);
    FloorMonotone(a * s, b * s);
  }

  lemma ShiftedMonotone(v: int, w: int, center: int, width: int)
    requires v <= w
    ensures Shifted(v, center, width) <= Shifted(w, center, width)
  {
  }

  lemma ScaleMonotone(a: real, b: real, s: real)
    requires a <= b && s > 0.0
    ensures a * s <= b * s
  {
  }

  lemma FloorMonotone(x: real, y: real)
    requires x <= y
    ensures x.Floor <= y.Floor
  {
  }

  /** A window that straddles zero sends everything at or below its minimum to 0 and
      everything at or above its maximum to 255. */
  lemma WindowLevelEnds(v: int, center: int, width: int)
    requires center != 0 && WindowMin(center, width) < 0.0 <= WindowMax(center, width)
    ensures v as real <= WindowMin(center, width) ==> WindowLevel(v, center, width) == 0
    ensures v as real >= WindowMax(center, width) ==> WindowLevel(v, center, width) == 255
  {
    var lo, hi := WindowMin(center, width), WindowMax(center, width);
    var d := Abs(lo) + Abs(hi);
    assert d == hi - lo;
    assert d * (255.0 / d) == 255.0;
  }

  /** The per-value step of `adjustToWindow` for a centre and width already defaulted. */
  function Window(center: int, width: int): int -> int
    requires center != 0
  {
    v => WindowLevel(v, center, width)
  }

  /** `map(values, level)`; `adjustToWindow(values, centre, width)` is this with
      `Window(centre, width)`. */
  function MapLevels(values: seq<int>, level: int -> int): (r: seq<int>)
    ensures |r| == |values|
  {
    seq(|values|, i requires 0 <= i < |values| => level(values[i]))
  }

  /** `map(values, i => 255 - i)`, used for MONOCHROME1. */
  function Invert(values: seq<int>): (r: seq<int>)
    ensures |r| == |values|
  {
    seq(|values|, i requires 0 <= i < |values| => 255 - values[i])
  }

  /** Inverting twice restores the levels, and inversion keeps them within 0 to 255. */
  lemma InvertInvolution(values: seq<int>)
    ensures Invert(Invert(values)) == values
    ensures (forall i :: 0 <= i < |values| ==> 0 <= values[i] <= 255) ==>
      forall i :: 0 <= i < |values| ==> 0 <= Invert(values)[i] <= 255
  {
  }

  // ----- colour tokens -----

  predicate IsUpperHexDigit(c: char)
  {
    ('0' <= c <= '9') || ('A' <= c <= 'F')
  }

  /** `#${value.repeat(3)}` with `value` the padded upper-case hexadecimal text of `x`. */
  function Token(x: int): string
  {
    "#" + Repeat(PaddedHex(x), 3)
  }

  /** `padStart(toUpper(x.toString(16)), 2, '0')`. */
  function PaddedHex(x: int): string
  {
    PadStart(ToUpper(IntToString(x, 16)), 2, '0')
  }

  /** Upper-casing hexadecimal digits keeps their value. */
  lemma {:induction false} ToUpperHexValue(s: string)
    requires forall i :: 0 <= i < |s| ==> IsLowerHexDigit(s[i])
    ensures forall i :: 0 <= i < |ToUpper(s)| ==> IsUpperHexDigit(ToUpper(s)[i])
    ensures AllDigitsOf(s, 16) && AllDigitsOf(ToUpper(s), 16)
    ensures ParseNat(ToUpper(s), 16) == ParseNat(s, 16)
    decreases |s|
  {
    if s != [] {
      var init := s[..|s| - 1];
      assert ToUpper(s)[..|s| - 1] == ToUpper(init);
      ToUpperHexValue(init);
    }
  }

  /** A level from 0 to 255 is written as two upper-case hexadecimal digits that read back
      as the level. */
  lemma PaddedHexOfLevel(x: int)
    requires 0 <= x <= 255
    ensures var d := PaddedHex(x);
      |d| == 2 && (forall i :: 0 <= i < 2 ==> IsUpperHexDigit(d[i])) &&
      AllDigitsOf(d, 16) && ParseNat(d, 16) == x
  {
    var s := NatToString(x, 16);
    assert Pow(16, 2) == 256;
    NatToStringLength(x, 16, 2);
    ParseNatToString(x, 16);
    ToUpperHexValue(s);
    var u := ToUpper(s);
    if |u| == 1 {
      assert PaddedHex(x) == "0" + u;
      ParseNatAppend("0", u, 16);
    }
  }

  /** A level from 0 to 255 becomes `#` and the same two upper-case hexadecimal digits three
      times, and those digits read back as the level. */
  lemma TokenOfLevel(x: int)
    requires 0 <= x <= 255
    ensures var t := Token(x);
      |t| == 7 && t[0] == '#' && t[1..3] == t[3..5] == t[5..7] &&
      (forall i :: 1 <= i < 7 ==> IsUpperHexDigit(t[i])) &&
      AllDigitsOf(t[1..3], 16) && ParseNat(t[1..3], 16) == x
  {
    PaddedHexOfLevel(x);
    ThreeTimes(PaddedHex(x));
  }

  lemma ThreeTimes(d: string)
    requires |d| == 2
    ensures var t := "#" + Repeat(d, 3);
      |t| == 7 && t[0] == '#' && t[1..3] == d && t[3..5] == d && t[5..7] == d &&
      forall i :: 1 <= i < 7 ==> t[i] == d[0] || t[i] == d[1]
  {
    assert Repeat(d, 3) == d + (d + d) by {
      assert Repeat(d, 1) == d;
      assert Repeat(d, 2) == d + d;
    }
  }

  /** Different levels give different tokens. */
  lemma TokenInjective(x: int, y: int)
    requires 0 <= x <= 255 && 0 <= y <= 255 && Token(x) == Token(y)
    ensures x == y
  {
    TokenOfLevel(x);
    TokenOfLevel(y);
  }

  function Tokens(levels: seq<int>): (r: seq<string>)
    ensures |r| == |levels|
  {
    seq(|levels|, i requires 0 <= i < |levels| => Token(levels[i]))
  }

  // ----- the pixel pipeline -----

  /** The descriptor values the pixel pipeline reads, after defaults. */
  datatype Descriptor = Descriptor(
    bitsAllocated: int,
    swap: bool,         // `highBit + 1 === bitsStored`
    unsigned: bool,     // `pixelRepresentation === 0`
    slope: int,
    intercept: int,
    center: int,
    width: int,
    monochrome1: bool)

  /** The grey level of one integer sample: rescaled, put through the window step, and
      inverted for MONOCHROME1. */
  function Level(d: Descriptor, window: int -> int, v: int): int
  {
    var l := window(d.slope * v + d.intercept);
    if d.monochrome1 then 255 - l else l
  }

  /** The colour tokens of some pixel bytes, stage by stage as the decoder computes them,
      with the window step as a parameter. */
  function Shade(raw: seq<byte>, d: Descriptor, window: int -> int): seq<string>
  {
    var samples := Ordered(HexSamples(raw, d.bitsAllocated), d.swap);
    SamplesAreHex(raw, d.bitsAllocated, d.swap);
    Display(Integers(samples, d.unsigned), d, window)
  }

  /** The stages after reading: rescale, window step, inversion for MONOCHROME1, tokens. */
  function Display(values: seq<int>, d: Descriptor, window: int -> int): (r: seq<string>)
    ensures |r| == |values|
  {
    var adjusted := MapLevels(Rescale(values, d.slope, d.intercept), window);
    Tokens(if d.monochrome1 then Invert(adjusted) else adjusted)
  }

  /** Each value is displayed as the token of its level. */
  lemma DisplayAt(values: seq<int>, d: Descriptor, window: int -> int, i: nat)
    requires i < |values|
    ensures Display(values, d, window)[i] == Token(Level(d, window, values[i]))
  {
    var scaled := Rescale(values, d.slope, d.intercept);
    var adjusted := MapLevels(scaled, window);
    var levels := if d.monochrome1 then Invert(adjusted) else adjusted;
    assert Display(values, d, window) == Tokens(levels);
    assert levels[i] == Level(d, window, values[i]) by {
      assert scaled[i] == d.slope * values[i] + d.intercept;
      assert adjusted[i] == window(scaled[i]);
    }
  }

  /** The colour tokens with the descriptor's window. */
  function PixelTokens(raw: seq<byte>, d: Descriptor): seq<string>
    requires d.center != 0
  {
    Shade(raw, d, Window(d.center, d.width))
  }

  lemma SamplesAreHex(raw: seq<byte>, bitsAllocated: int, swap: bool)
    ensures HexDigitSamples(Ordered(HexSamples(raw, bitsAllocated), swap))
  {
    OrderedSamples(raw, bitsAllocated, swap);
  }

  /** The `i`-th token is the token of the level of the `i`-th group of bytes. */
  lemma ShadeOfBytes(raw: seq<byte>, d: Descriptor, window: int -> int)
    ensures var groups := Chunk(raw, BytesPerSample(d.bitsAllocated));
      |Shade(raw, d, window)| == |groups| &&
      forall i :: 0 <= i < |groups| ==>
        Shade(raw, d, window)[i] == Token(Level(d, window, SampleValue(groups[i], d.swap, d.unsigned)))
  {
    var groups := Chunk(raw, BytesPerSample(d.bitsAllocated));
    var samples := Ordered(HexSamples(raw, d.bitsAllocated), d.swap);
    IntegersOfBytes(raw, d.bitsAllocated, d.swap, d.unsigned);
    var values := Integers(samples, d.unsigned);
    assert Shade(raw, d, window) == Display(values, d, window);
    forall i | 0 <= i < |groups|
      ensures Shade(raw, d, window)[i] == Token(Level(d, window, SampleValue(groups[i], d.swap, d.unsigned)))
    {
      DisplayAt(values, d, window, i);
    }
  }

  /** The pixel tokens follow the groups of bytes, one token per group. */
  lemma PixelTokensOfBytes(raw: seq<byte>, d: Descriptor)
    requires d.center != 0
    ensures var groups := Chunk(raw, BytesPerSample(d.bitsAllocated));
      |PixelTokens(raw, d)| == |groups| &&
      forall i :: 0 <= i < |groups| ==>
        PixelTokens(raw, d)[i] == Token(Level(d, Window(d.center, d.width), SampleValue(groups[i], d.swap, d.unsigned)))
  {
    ShadeOfBytes(raw, d, Window(d.center, d.width));
  }

  /** One token per sample of `BytesPerSample` bytes, the last sample possibly shorter. */
  lemma PixelTokenCount(raw: seq<byte>, d: Descriptor)
    requires d.center != 0 && d.bitsAllocated > 0
    ensures var k := BytesPerSample(d.bitsAllocated);
      |PixelTokens(raw, d)| == (|raw| + k - 1) / k
  {
    ShadeCount(raw, d, Window(d.center, d.width));
  }

  lemma ShadeCount(raw: seq<byte>, d: Descriptor, window: int -> int)
    requires d.bitsAllocated > 0
    ensures var k := BytesPerSample(d.bitsAllocated);
      |Shade(raw, d, window)| == (|raw| + k - 1) / k
  {
    ShadeOfBytes(raw, d, window);
    ChunkCount(raw, BytesPerSample(d.bitsAllocated));
  }

  /** With a window of non-negative width every token is a grey `#RRGGBB` colour whose two
      digits read back as the level of its sample. */
  lemma PixelTokensGrey(raw: seq<byte>, d: Descriptor, i: nat)
    requires d.center != 0 && d.width >= 0 && i < |PixelTokens(raw, d)|
    ensures i < |Chunk(raw, BytesPerSample(d.bitsAllocated))|
    ensures var t := PixelTokens(raw, d)[i];
      var level := Level(d, Window(d.center, d.width), SampleValue(Chunk(raw, BytesPerSample(d.bitsAllocated))[i], d.swap, d.unsigned));
      0 <= level <= 255 &&
      |t| == 7 && t[0] == '#' && t[1..3] == t[3..5] == t[5..7] &&
      AllDigitsOf(t[1..3], 16) && ParseNat(t[1..3], 16) == level
  {
    PixelTokensOfBytes(raw, d);
    var v := SampleValue(Chunk(raw, BytesPerSample(d.bitsAllocated))[i], d.swap, d.unsigned);
    LevelRange(d, v);
    TokenOfLevel(Level(d, Window(d.center, d.width), v));
  }

  /** With a window of non-negative width, every level, inverted or not, is from 0 to 255. */
  lemma LevelRange(d: Descriptor, v: int)
    requires d.center != 0 && d.width >= 0
    ensures 0 <= Level(d, Window(d.center, d.width), v) <= 255
  {
    var x := d.slope * v + d.intercept;
    assert Window(d.center, d.width)(x) == WindowLevel(x, d.center, d.width);
    WindowLevelRange(x, d.center, d.width);
  }

  /** Two bytes of 16-bit signed pixels, least significant first: `FF FF` is read as -1. */
  lemma SignedSampleExample()
    ensures SampleValue([0xFF, 0xFF], true, false) == -1
    ensures SampleValue([0xFF, 0xFF], false, false) == -1
  {
    TwosComplementOfPair([0xFF, 0xFF], true);
    TwosComplementOfPair([0xFF, 0xFF], false);
    Unsigned16([0xFF, 0xFF], true);
    Unsigned16([0xFF, 0xFF], false);
    assert Pow(256, 2) == 65536;
  }

  // ----- the descriptor tags -----

  /** The number a decoded value holds, when it is a single integer. */
  function NumberValue(v: Value): Option<int>
  {
    match v
    case Numbers(One(UInt(n))) => Some(n)
    case Numbers(One(SInt(i))) => Some(i)
    case Number(Int(i)) => Some(i)
    case _ => None
  }

  /** The decoded values JavaScript treats as false: no value, `NaN`, zero, the empty string,
      and the `null` of a date or time that did not parse. */
  predicate Falsy(v: Value)
  {
    v.Undefined? || v.NotANumber? || v == Number(NaN) || NumberValue(v) == Some(0) ||
    v == Strings(One("")) || v == Dates(One(None)) || v == Times(One(None))
  }

  /** `tag ? tag.value : default` (rescale slope and intercept); `None` when the value is not
      an integer. */
  function RescaleParam(tag: Option<Tag>, default: int): (r: Option<int>)
    ensures tag.None? ==> r == Some(default)
    ensures tag.Some? ==> r == NumberValue(tag.value.value)
  {
    if tag.None? then Some(default) else NumberValue(tag.value.value)
  }

  /** `tag && tag.value ? tag.value : default` (window centre and width); `None` when the
      value is neither falsy nor an integer. A truthy value is never zero. */
  function WindowParam(tag: Option<Tag>, default: int): (r: Option<int>)
    requires default != 0
    ensures r.Some? ==> r.value != 0
    ensures tag.None? || Falsy(tag.value.value) ==> r == Some(default)
    ensures tag.Some? && !Falsy(tag.value.value) ==> r == NumberValue(tag.value.value)
  {
    if tag.None? || Falsy(tag.value.value) then Some(default) else NumberValue(tag.value.value)
  }

  /** The tags of the image group that `getPixelData` destructures, by key. */
  datatype ImageGroup = ImageGroup(
    bitsAllocated: Option<Tag>, bitsStored: Option<Tag>, highBit: Option<Tag>,
    photometricInterpretation: Option<Tag>, pixelRepresentation: Option<Tag>,
    rescaleIntercept: Option<Tag>, rescaleSlope: Option<Tag>,
    windowCenter: Option<Tag>, windowWidth: Option<Tag>)

  /** `const { bitsAllocated, ... } = group`. */
  function Destructure(g: Dataset): (r: ImageGroup)
    ensures r.bitsAllocated == Get(g, "bitsAllocated") && r.bitsStored == Get(g, "bitsStored")
    ensures r.highBit == Get(g, "highBit") && r.pixelRepresentation == Get(g, "pixelRepresentation")
    ensures r.photometricInterpretation == Get(g, "photometricInterpretation")
    ensures r.rescaleIntercept == Get(g, "rescaleIntercept") && r.rescaleSlope == Get(g, "rescaleSlope")
    ensures r.windowCenter == Get(g, "windowCenter") && r.windowWidth == Get(g, "windowWidth")
  {
    ImageGroup(
      Get(g, "bitsAllocated"), Get(g, "bitsStored"), Get(g, "highBit"),
      Get(g, "photometricInterpretation"), Get(g, "pixelRepresentation"),
      Get(g, "rescaleIntercept"), Get(g, "rescaleSlope"),
      Get(g, "windowCenter"), Get(g, "windowWidth"))
  }

  /** The four descriptor tags whose `.value` is read unconditionally are present. */
  predicate HasDescriptor(t: ImageGroup)
  {
    t.bitsAllocated.Some? && t.bitsStored.Some? && t.highBit.Some? && t.pixelRepresentation.Some?
  }

  /** The descriptor read from the image group, or `None` when a value the pixel pipeline computes
      with is not an integer. */
  function Describe(t: ImageGroup): (r: Option<Descriptor>)
    requires HasDescriptor(t)
    ensures r.Some? ==> r.value.center != 0 && r.value.width != 0
    ensures r.Some? ==> Some(r.value.bitsAllocated) == NumberValue(t.bitsAllocated.value.value)
    ensures r.Some? ==> (r.value.unsigned <==> NumberValue(t.pixelRepresentation.value.value) == Some(0))
    ensures r.Some? ==>
      match (NumberValue(t.highBit.value.value), NumberValue(t.bitsStored.value.value))
      case (Some(h), Some(b)) => r.value.swap <==> h + 1 == b
      case _ => false
    ensures r.Some? ==> (r.value.monochrome1 <==>
      t.photometricInterpretation.Some? && t.photometricInterpretation.value.value == Strings(One("MONOCHROME1")))
    ensures r.Some? ==>
      Some(r.value.slope) == RescaleParam(t.rescaleSlope, 1) &&
      Some(r.value.intercept) == RescaleParam(t.rescaleIntercept, 0) &&
      Some(r.value.center) == WindowParam(t.windowCenter, 610) &&
      Some(r.value.width) == WindowParam(t.windowWidth, 1221)
    ensures r.None? <==>
      NumberValue(t.bitsAllocated.value.value).None? || NumberValue(t.highBit.value.value).None? ||
      NumberValue(t.bitsStored.value.value).None? || RescaleParam(t.rescaleSlope, 1).None? ||
      RescaleParam(t.rescaleIntercept, 0).None? || WindowParam(t.windowCenter, 610).None? ||
      WindowParam(t.windowWidth, 1221).None?
  {
    var bitsAllocated := NumberValue(t.bitsAllocated.value.value);
    var highBit := NumberValue(t.highBit.value.value);
    var bitsStored := NumberValue(t.bitsStored.value.value);
    var slope := RescaleParam(t.rescaleSlope, 1);
    var intercept := RescaleParam(t.rescaleIntercept, 0);
    var center := WindowParam(t.windowCenter, 610);
    var width := WindowParam(t.windowWidth, 1221);
    var photometric := t.photometricInterpretation;
    if bitsAllocated.None? || highBit.None? || bitsStored.None? || slope.None? ||
       intercept.None? || center.None? || width.None? then None
    else
      Some(Descriptor(
        bitsAllocated.value,
        highBit.value + 1 == bitsStored.value,
        NumberValue(t.pixelRepresentation.value.value) == Some(0),
        slope.value, intercept.value, center.value, width.value,
        photometric.Some? && photometric.value.value == Strings(One("MONOCHROME1"))))
  }

  /** What `getPixelData` gives: `undefined` without a Pixel Data element, or the colour
      tokens. `NonIntegerDescriptor` stands for the descriptors whose arithmetic this model
      does not follow (fractions, arrays, text). */
  datatype Pixels = NoPixelData | NonIntegerDescriptor | Colours(tokens: seq<string>)

  /** `getPixelData(dataset)`. */
  function GetPixelData(ds: Dataset): (r: Result<Pixels, Error>)
    ensures var group := GetTagsGroup(ds, "0028");
      var pixel := GetTagValue(ds, Key("Pixel Data"));
      (group.Failure? ==> r == Failure(group.error)) &&
      (group.Success? ==> (r == Success(NoPixelData) <==> pixel.NotFound?)) &&
      (group.Success? && pixel.Found? ==>
        (r == Failure(MissingDescriptor) <==> !HasDescriptor(Destructure(group.value)))) &&
      (r.Success? && r.value.Colours? ==>
        group.Success? && pixel.Found? && HasDescriptor(Destructure(group.value)) &&
        Describe(Destructure(group.value)).Some? &&
        r.value.tokens == PixelTokens(pixel.tag.rawValue, Describe(Destructure(group.value)).value)) &&
      (group.Success? && pixel.Found? && HasDescriptor(Destructure(group.value)) ==>
        r == match Describe(Destructure(group.value))
          case None => Success(NonIntegerDescriptor)
          case Some(d) => Success(Colours(PixelTokens(pixel.tag.rawValue, d))))
  {
    var group := GetTagsGroup(ds, "0028");
    if group.Failure? then Failure(group.error)
    else
      var pixel := GetTagValue(ds, Key("Pixel Data"));
      var tags := Destructure(group.value);
      if !pixel.Found? then Success(NoPixelData)
      else if !HasDescriptor(tags) then Failure(MissingDescriptor)
      else
        match Describe(tags)
        case None => Success(NonIntegerDescriptor)
        case Some(d) => Success(Colours(PixelTokens(pixel.tag.rawValue, d)))
  }
}
