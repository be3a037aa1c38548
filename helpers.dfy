/** The decoder's small helpers: byte-order patterns for tag headers, hexadecimal tag
    names, the stop conditions of the dataset reader, byte swapping of hexadecimal pixel
    text, unique dataset keys, and the DA (date) and TM (time) value handlers. */
module Helpers {
  import opened Wrappers
  import opened Seqs
  import opened Text
  import opened Bytes
  import opened Bufferpack
  import opened JsNumber

  // ----- byte order and header patterns -----

  /** `<` for little-endian data, `>` for big-endian. */
  function GetEndianCharacter(littleEndian: bool): (c: char)
    ensures ParseFormat([c]) == Some(Format(littleEndian, []))
  {
    var c := if littleEndian then '<' else '>';
    assert [c][1..] == [];
    c
  }

  /** The fields of an implicit-VR tag header: group, element, 32-bit length. */
  const ImplicitHeader: seq<Item> := [Item(1, UnsignedCode(2)), Item(1, UnsignedCode(2)), Item(1, UnsignedCode(4))]

  /** The fields of an explicit-VR tag header: group, element, two VR characters, 16-bit length. */
  const ExplicitHeader: seq<Item> := [Item(1, UnsignedCode(2)), Item(1, UnsignedCode(2)), Item(2, CharsCode), Item(1, UnsignedCode(2))]

  /** The pattern a tag header is unpacked with: both kinds describe eight bytes. */
  function GetEndianPattern(littleEndian: bool, implicitVR: bool): (p: string)
    ensures ParseFormat(p) == Some(Format(littleEndian, if implicitVR then ImplicitHeader else ExplicitHeader))
    ensures CalcLength(p) == 8
  {
    var p := [GetEndianCharacter(littleEndian)] + if implicitVR then "HHL" else "HH2sH";
    assert p[1..] == if implicitVR then "HHL" else "HH2sH";
    HeaderItems();
    p
  }

  lemma HeaderItems()
    ensures ParseItems("HHL") == Some(ImplicitHeader)
    ensures ParseItems("HH2sH") == Some(ExplicitHeader)
  {
    ImplicitItems();
    ExplicitItems();
  }

  lemma ImplicitItems()
    ensures ParseItems("HHL") == Some(ImplicitHeader)
  {
    var u2, u4 := Item(1, UnsignedCode(2)), Item(1, UnsignedCode(4));
    LastItem('L', UnsignedCode(4));
    assert "HL" == ['H'] + "L";
    ConsItem('H', "L", UnsignedCode(2), [u4]);
    assert "HHL" == ['H'] + "HL";
    assert [u2] + [u4] == [u2, u4];
    ConsItem('H', "HL", UnsignedCode(2), [u2, u4]);
    assert [u2] + [u2, u4] == ImplicitHeader;
  }

  lemma ExplicitItems()
    ensures ParseItems("HH2sH") == Some(ExplicitHeader)
  {
    var u2 := Item(1, UnsignedCode(2));
    CharsItem();
    var tail := [Item(2, CharsCode), u2];
    assert "H2sH" == ['H'] + "2sH";
    ConsItem('H', "2sH", UnsignedCode(2), tail);
    assert "HH2sH" == ['H'] + "H2sH";
    ConsItem('H', "H2sH", UnsignedCode(2), [u2] + tail);
    assert [u2] + ([u2] + tail) == ExplicitHeader;
  }

  lemma ConsItem(c: char, rest: string, code: Code, items: seq<Item>)
    requires CodeOf(c) == Some(code) && ParseItems(rest) == Some(items)
    ensures ParseItems([c] + rest) == Some([Item(1, code)] + items)
  {
    SingleItem(c, rest, code);
  }

  lemma CharsItem()
    ensures ParseItems("2sH") == Some([Item(2, CharsCode), Item(1, UnsignedCode(2))])
  {
    LastItem('H', UnsignedCode(2));
    var s := "2sH";
    DigitRunOf("2", "sH");
    assert s == "2" + "sH";
    assert DigitRun(s) == 1;
    assert s[1] == 's' && CodeOf(s[1]) == Some(CharsCode);
    assert s[..1] == "2" && s[2..] == "H";
    assert "2"[..0] == [];
    assert ParseNat("2", 10) == 2;
    assert ParseItems(s[2..]) == Some([Item(1, UnsignedCode(2))]);
    assert ParseItems(s) == Some([Item(2, CharsCode)] + [Item(1, UnsignedCode(2))]);
    assert [Item(2, CharsCode)] + [Item(1, UnsignedCode(2))] == [Item(2, CharsCode), Item(1, UnsignedCode(2))];
  }

  lemma LastItem(c: char, code: Code)
    requires CodeOf(c) == Some(code)
    ensures ParseItems([c]) == Some([Item(1, code)])
  {
    SingleItem(c, [], code);
    assert [c] + [] == [c];
    assert [Item(1, code)] + [] == [Item(1, code)];
  }

  /** What unpacking eight header bytes with the pattern gives: group and element, then the
      32-bit length (implicit VR) or the two VR characters and the 16-bit length (explicit VR).
      Fewer than eight bytes do not unpack. */
  lemma UnpackHeader(littleEndian: bool, implicitVR: bool, tag: seq<byte>)
    ensures |tag| < 8 ==> Unpack(GetEndianPattern(littleEndian, implicitVR), tag, 0).None?
    ensures |tag| >= 8 ==> Unpack(GetEndianPattern(littleEndian, implicitVR), tag, 0) == Some(
      [UInt(Unsigned(tag[0..2], littleEndian)), UInt(Unsigned(tag[2..4], littleEndian))] +
      if implicitVR then [UInt(Unsigned(tag[4..8], littleEndian))]
      else [Str(ArrayToText(tag[4..6])), UInt(Unsigned(tag[6..8], littleEndian))])
  {
    var items := if implicitVR then ImplicitHeader else ExplicitHeader;
    UnpackItemsDefined(items, littleEndian, tag, 0);
    if |tag| >= 8 {
      assert Unpack(GetEndianPattern(littleEndian, implicitVR), tag, 0) == UnpackItems(items, littleEndian, tag, 0);
      if implicitVR {
        UnpackImplicitHeader(littleEndian, tag);
        var f1, f2 := UInt(Unsigned(tag[0..2], littleEndian)), UInt(Unsigned(tag[2..4], littleEndian));
        var f3 := UInt(Unsigned(tag[4..8], littleEndian));
        assert [f1, f2] + [f3] == [f1, f2, f3];
      } else {
        UnpackExplicitHeader(littleEndian, tag);
        var f1, f2 := UInt(Unsigned(tag[0..2], littleEndian)), UInt(Unsigned(tag[2..4], littleEndian));
        var f3, f4 := Str(ArrayToText(tag[4..6])), UInt(Unsigned(tag[6..8], littleEndian));
        assert [f1, f2] + [f3, f4] == [f1, f2, f3, f4];
      }
    }
  }

  lemma UnpackImplicitHeader(le: bool, tag: seq<byte>)
    requires |tag| >= 8
    ensures UnpackItems(ImplicitHeader, le, tag, 0) == Some(
      [UInt(Unsigned(tag[0..2], le)), UInt(Unsigned(tag[2..4], le)), UInt(Unsigned(tag[4..8], le))])
  {
    var u2, u4 := Item(1, UnsignedCode(2)), Item(1, UnsignedCode(4));
    var f2, f3 := UInt(Unsigned(tag[2..4], le)), UInt(Unsigned(tag[4..8], le));
    UnpackLast(u4, le, tag, 4);
    UnitFields(UnsignedCode(4), le, tag[4..8]);
    assert ItemLength(u4) == 4;
    assert UnpackItems([u4], le, tag, 4) == Some([f3]);
    UnitFields(UnsignedCode(2), le, tag[2..4]);
    UnpackCons(u2, [u4], le, tag, 2);
    assert ItemLength(u2) == 2;
    assert UnpackItems([u2] + [u4], le, tag, 2) == Some([f2] + [f3]);
    assert ImplicitHeader[1..] == [u2] + [u4] && [f2] + [f3] == [f2, f3];
    assert ImplicitHeader[0] == u2;
    assert UnpackItems(ImplicitHeader[1..], le, tag, 2) == Some([f2, f3]);
    UnpackFirst(ImplicitHeader, le, tag, [f2, f3]);
    assert [UInt(Unsigned(tag[0..2], le))] + [f2, f3] == [UInt(Unsigned(tag[0..2], le)), f2, f3];
  }

  lemma UnpackExplicitHeader(le: bool, tag: seq<byte>)
    requires |tag| >= 8
    ensures UnpackItems(ExplicitHeader, le, tag, 0) == Some(
      [UInt(Unsigned(tag[0..2], le)), UInt(Unsigned(tag[2..4], le)), Str(ArrayToText(tag[4..6])), UInt(Unsigned(tag[6..8], le))])
  {
    var u2, vr := Item(1, UnsignedCode(2)), Item(2, CharsCode);
    var f2, f3, f4 := UInt(Unsigned(tag[2..4], le)), Str(ArrayToText(tag[4..6])), UInt(Unsigned(tag[6..8], le));
    UnpackLast(u2, le, tag, 6);
    UnitFields(UnsignedCode(2), le, tag[6..8]);
    CharsFields(2, le, tag[4..6]);
    UnpackCons(vr, [u2], le, tag, 4);
    assert UnpackItems([vr] + [u2], le, tag, 4) == Some([f3] + [f4]);
    UnitFields(UnsignedCode(2), le, tag[2..4]);
    UnpackCons(u2, [vr, u2], le, tag, 2);
    assert [vr] + [u2] == [vr, u2] && [f3] + [f4] == [f3, f4];
    assert UnpackItems([u2] + [vr, u2], le, tag, 2) == Some([f2] + [f3, f4]);
    assert ExplicitHeader[1..] == [u2] + [vr, u2] && [f2] + [f3, f4] == [f2, f3, f4];
    assert ExplicitHeader[0] == u2;
    assert UnpackItems(ExplicitHeader[1..], le, tag, 2) == Some([f2, f3, f4]);
    UnpackFirst(ExplicitHeader, le, tag, [f2, f3, f4]);
    assert [UInt(Unsigned(tag[0..2], le))] + [f2, f3, f4] == [UInt(Unsigned(tag[0..2], le)), f2, f3, f4];
  }

  /** The last header item: unpacking it alone. */
  lemma UnpackLast(it: Item, le: bool, b: seq<byte>, p: nat)
    requires p + ItemLength(it) <= |b|
    ensures UnpackItems([it], le, b, p) == Some(ItemFields(it, le, b[p..p + ItemLength(it)]))
  {
    UnpackCons(it, [], le, b, p);
    assert [it] + [] == [it];
    assert UnpackItems([], le, b, p + ItemLength(it)) == Some([]);
    var fs := ItemFields(it, le, b[p..p + ItemLength(it)]);
    assert fs + [] == fs;
  }

  /** The group comes first: a 16-bit value from the first two bytes. */
  lemma UnpackFirst(items: seq<Item>, le: bool, tag: seq<byte>, fs: seq<Field>)
    requires |tag| >= 8 && |items| >= 1 && items[0] == Item(1, UnsignedCode(2))
    requires UnpackItems(items[1..], le, tag, 2) == Some(fs)
    ensures UnpackItems(items, le, tag, 0) == Some([UInt(Unsigned(tag[0..2], le))] + fs)
  {
    UnitFields(UnsignedCode(2), le, tag[0..2]);
    UnpackCons(items[0], items[1..], le, tag, 0);
    assert [items[0]] + items[1..] == items;
  }

  // ----- hexadecimal tag names -----

  /** `getHexRepresentation`: group and element as four lower-case hexadecimal digits each
      (the last four when a number needs more). */
  function GetHexRepresentation(group: nat, element: nat): (r: (string, string))
    ensures r.0 == FixedDigits(group, 16, 4) && r.1 == FixedDigits(element, 16, 4)
  {
    assert "0000" == Zeros(4);
    TakeRightPadded(group, 16, 4, 4);
    TakeRightPadded(element, 16, 4, 4);
    (TakeRight("0000" + NatToString(group, 16), 4), TakeRight("0000" + NatToString(element, 16), 4))
  }

  /** A 16-bit group and element are read back from their hexadecimal names, so distinct
      tags have distinct names. */
  lemma HexRepresentationRoundTrip(group: nat, element: nat)
    requires group < 0x10000 && element < 0x10000
    ensures var r := GetHexRepresentation(group, element);
      AllDigitsOf(r.0, 16) && AllDigitsOf(r.1, 16) &&
      ParseNat(r.0, 16) == group && ParseNat(r.1, 16) == element
  {
    assert Pow(16, 4) == 0x10000;
    ParseFixedDigits(group, 16, 4);
    ParseFixedDigits(element, 16, 4);
  }

  lemma HexRepresentationInjective(g1: nat, e1: nat, g2: nat, e2: nat)
    requires g1 < 0x10000 && e1 < 0x10000 && g2 < 0x10000 && e2 < 0x10000
    requires GetHexRepresentation(g1, e1) == GetHexRepresentation(g2, e2)
    ensures g1 == g2 && e1 == e2
  {
    HexRepresentationRoundTrip(g1, e1);
    HexRepresentationRoundTrip(g2, e2);
  }

  /** `numberToHex(i)`: the last two characters of `'0'` and the hexadecimal digits of `i`. */
  function NumberToHex(i: nat): (r: string)
    ensures r == FixedDigits(i, 16, 2)
  {
    assert "0" == Zeros(1);
    TakeRightPadded(i, 16, 1, 2);
    TakeRight("0" + NatToString(i, 16), 2)
  }

  /** A byte is read back from its two hexadecimal digits. */
  lemma NumberToHexRoundTrip(b: byte)
    ensures AllDigitsOf(NumberToHex(b), 16) && ParseNat(NumberToHex(b), 16) == b
  {
    assert Pow(16, 2) == 256;
    ParseFixedDigits(b, 16, 2);
  }

  // ----- stop conditions of the dataset reader -----

  predicate NotGroup0000(group: nat)
  {
    group != 0
  }

  predicate NotGroup0002(group: nat)
  {
    group != 2
  }

  // ----- byte swapping of hexadecimal text -----

  /** `littleEndianToBigEndian(hex)`: the two-character pieces of the text in reverse
      order; text of at most two characters is returned as it is. */
  function LittleEndianToBigEndian(hex: string): (r: string)
    ensures |r| == |hex|
  {
    if |hex| > 2 then
      FlattenReverseLength(Chunk(hex, 2));
      Flatten(Reverse(Chunk(hex, 2)))
    else hex
  }

  /** Swapping the hexadecimal digits of some bytes gives the digits of the bytes in
      reverse order: the little-endian text of a value becomes its big-endian text. */
  lemma LittleEndianToBigEndianOfBytes(b: seq<byte>)
    ensures LittleEndianToBigEndian(HexOfBytes(b)) == HexOfBytes(Reverse(b))
  {
    var parts := Hex2(b);
    HexOfBytesLength(b);
    if |b| >= 2 {
      assert |HexOfBytes(b)| > 2;
      ChunkFlatten(parts, 2);
      assert LittleEndianToBigEndian(HexOfBytes(b)) == Flatten(Reverse(parts));
      Hex2Reverse(b);
    } else {
      assert Reverse(b) == b;
    }
  }

  lemma Hex2Reverse(b: seq<byte>)
    ensures Reverse(Hex2(b)) == Hex2(Reverse(b))
  {
    MapReverse(ByteToHex, b);
  }

  /** Swapping twice restores text of even length. */
  lemma LittleEndianToBigEndianInvolution(hex: string)
    requires |hex| % 2 == 0
    ensures LittleEndianToBigEndian(LittleEndianToBigEndian(hex)) == hex
  {
    if |hex| > 2 {
      var chunks := Chunk(hex, 2);
      ChunkExact(hex, 2, |hex| / 2);
      var rev := Reverse(chunks);
      assert forall i :: 0 <= i < |rev| ==> |rev[i]| == 2;
      ChunkFlatten(rev, 2);
      ReverseReverse(chunks);
    }
  }

  /** The two-digit hexadecimal text of each byte. */
  function Hex2(b: seq<byte>): (r: seq<string>)
    ensures |r| == |b|
    ensures forall i :: 0 <= i < |r| ==> r[i] == NumberToHex(b[i]) && |r[i]| == 2
  {
    Map(ByteToHex, b)
  }

  /** `numberToHex` on a byte. */
  function ByteToHex(x: byte): string
  {
    NumberToHex(x)
  }

  /** The hexadecimal text of some bytes, two digits per byte, in order. */
  function HexOfBytes(b: seq<byte>): string
  {
    Flatten(Hex2(b))
  }

  lemma {:induction false} HexOfBytesLength(b: seq<byte>)
    ensures |HexOfBytes(b)| == 2 * |b|
  {
    if b != [] {
      assert Hex2(b) == [Hex2(b)[0]] + Hex2(b[1..]);
      HexOfBytesLength(b[1..]);
    }
  }

  // ----- unique keys -----

  /** The key `<key>-<index>` that `getSafeKey` tries. */
  function Candidate(key: string, index: nat): string
  {
    key + "-" + NatToString(index, 10)
  }

  predicate IsCandidate(key: string, t: string)
  {
    |t| > |key| + 1 && t[..|key|] == key && t[|key|] == '-' && AllDigitsOf(t[|key| + 1..], 10)
  }

  /** The index a candidate key carries. */
  function CandidateIndex(key: string, t: string): nat
    requires IsCandidate(key, t)
  {
    ParseNat(t[|key| + 1..], 10)
  }

  /** The index of a candidate is read back from it, so candidates with distinct indices differ. */
  lemma CandidateRoundTrip(key: string, index: nat)
    ensures IsCandidate(key, Candidate(key, index))
    ensures CandidateIndex(key, Candidate(key, index)) == index
  {
    var t := Candidate(key, index);
    assert t[..|key|] == key;
    assert t[|key| + 1..] == NatToString(index, 10);
    ParseNatToString(index, 10);
  }

  /** The first index from `i` on whose candidate is not among the keys. */
  function SafeKeyIndex(keys: set<string>, key: string, i: nat): (r: nat)
    ensures r >= i
    ensures Candidate(key, r) !in keys
    ensures forall j :: i <= j < r ==> Candidate(key, j) in keys
    decreases |keys|
  {
    var c := Candidate(key, i);
    if c in keys then
      var r := SafeKeyIndex(keys - {c}, key, i + 1);
      CandidateRoundTrip(key, i);
      CandidateRoundTrip(key, r);
      r
    else i
  }

  /** `getSafeKey(object, key)`: `<key>-1`, `<key>-2`, … up to the first that is not a key
      of the object. */
  method GetSafeKey(keys: set<string>, key: string) returns (r: string)
    ensures r == Candidate(key, SafeKeyIndex(keys, key, 1))
  {
    var index := 1;
    ghost var unseen := keys;
    while Candidate(key, index) in keys
      invariant 1 <= index && unseen <= keys
      invariant SafeKeyIndex(unseen, key, index) == SafeKeyIndex(keys, key, 1)
      invariant forall t :: t in keys && t !in unseen ==> IsCandidate(key, t) && CandidateIndex(key, t) < index
      decreases |unseen|
    {
      CandidateRoundTrip(key, index);
      unseen := unseen - {Candidate(key, index)};
      index := index + 1;
    }
    CandidateRoundTrip(key, index);
    r := Candidate(key, index);
  }

  /** The safe key is new, it has the `<key>-<index>` form, and every smaller index is taken. */
  lemma SafeKeyFresh(keys: set<string>, key: string)
    ensures var i := SafeKeyIndex(keys, key, 1);
      i >= 1 && Candidate(key, i) !in keys && IsCandidate(key, Candidate(key, i)) &&
      forall j :: 1 <= j < i ==> Candidate(key, j) in keys
  {
    CandidateRoundTrip(key, SafeKeyIndex(keys, key, 1));
  }

  // ----- clamping -----

  /** `getInRange(value, minimum, maximum)`: the value clamped to the range; with no
      maximum, only the minimum applies. */
  function GetInRange(value: int, minimum: int, maximum: Option<int>): (r: int)
    ensures r >= minimum
    ensures maximum.Some? && minimum <= maximum.value ==> r <= maximum.value
    ensures (maximum.None? || value <= maximum.value) && minimum <= value ==> r == value
    ensures maximum.Some? && minimum <= maximum.value && value > maximum.value ==> r == maximum.value
    ensures value < minimum ==> r == minimum
    ensures maximum.Some? && maximum.value < minimum ==> r == minimum
  {
    var minValue := if maximum.Some? then Min(value, maximum.value) else value;
    Max(minValue, minimum)
  }

  /** Clamping twice is clamping once. */
  lemma GetInRangeIdempotent(value: int, minimum: int, maximum: Option<int>)
    requires maximum.Some? ==> minimum <= maximum.value
    ensures GetInRange(GetInRange(value, minimum, maximum), minimum, maximum) == GetInRange(value, minimum, maximum)
  {
  }

  // ----- dates and times -----

  /** The year, month and day a DA value is read as. */
  datatype DateParts = DateParts(year: Num, month: Num, day: Num)

  /** The hours, minutes, seconds and fraction a TM value is read as. */
  datatype TimeParts = TimeParts(hours: Num, minutes: Num, seconds: Num, microseconds: Num)

  /** `handleDA(value)`: `YYYYMMDD` or `YYYY.MM.DD` (after trimming), read as three numbers;
      anything else, and blank text, is `null`. The digits are sliced from the untrimmed text. */
  function HandleDA(value: string): (r: Option<DateParts>)
    ensures r.Some? <==> |Trim(value)| == 8 || (|Trim(value)| == 10 && |value| > 7 && value[4] == '.' && value[7] == '.')
  {
    var trimmed := Trim(value);
    if trimmed == [] then None
    else if |trimmed| == 8 then
      Some(DateParts(StringToNumber(Slice(value, 0, 4)), StringToNumber(Slice(value, 4, 6)), StringToNumber(Slice(value, 6, 8))))
    else if |trimmed| == 10 && |value| > 7 && value[4] == '.' && value[7] == '.' then
      Some(DateParts(StringToNumber(Slice(value, 0, 4)), StringToNumber(Slice(value, 5, 7)), StringToNumber(Slice(value, 8, 10))))
    else None
  }

  /** A date written `YYYYMMDD` gives its three numbers. */
  lemma HandleDACompact(v: string)
    requires |v| == 8 && AllDecimal(v)
    ensures AllDigitsOf(v[0..4], 10) && AllDigitsOf(v[4..6], 10) && AllDigitsOf(v[6..8], 10)
    ensures HandleDA(v) == Some(DateParts(Int(ParseNat(v[0..4], 10)), Int(ParseNat(v[4..6], 10)), Int(ParseNat(v[6..8], 10))))
  {
    DecimalTrim(v);
    assert Slice(v, 0, 4) == v[0..4] && Slice(v, 4, 6) == v[4..6] && Slice(v, 6, 8) == v[6..8];
    assert HandleDA(v) == Some(DateParts(StringToNumber(v[0..4]), StringToNumber(v[4..6]), StringToNumber(v[6..8])));
    NumberOfDigits(v[0..4]);
    NumberOfDigits(v[4..6]);
    NumberOfDigits(v[6..8]);
  }

  /** A date written `YYYY.MM.DD` gives its three numbers. */
  lemma HandleDADotted(v: string)
    requires |v| == 10 && v[4] == '.' && v[7] == '.'
    requires AllDecimal(v[0..4]) && AllDecimal(v[5..7]) && AllDecimal(v[8..10])
    ensures AllDigitsOf(v[0..4], 10) && AllDigitsOf(v[5..7], 10) && AllDigitsOf(v[8..10], 10)
    ensures HandleDA(v) == Some(DateParts(Int(ParseNat(v[0..4], 10)), Int(ParseNat(v[5..7], 10)), Int(ParseNat(v[8..10], 10))))
  {
    assert v[0] == v[0..4][0] && v[9] == v[8..10][1];
    TrimNoWhiteSpace(v);
    assert Slice(v, 0, 4) == v[0..4] && Slice(v, 5, 7) == v[5..7] && Slice(v, 8, 10) == v[8..10];
    assert HandleDA(v) == Some(DateParts(StringToNumber(v[0..4]), StringToNumber(v[5..7]), StringToNumber(v[8..10])));
    NumberOfDigits(v[0..4]);
    NumberOfDigits(v[5..7]);
    NumberOfDigits(v[8..10]);
  }

  /** Decimal digits are not white space, so digit text is its own trim. */
  lemma DecimalTrim(v: string)
    requires AllDecimal(v)
    ensures Trim(v) == v
  {
    if v != [] {
      assert IsDecimalDigit(v[0]) && IsDecimalDigit(v[|v| - 1]);
      TrimNoWhiteSpace(v);
    }
  }

  /** `handleTM(value)`: `HHMMSS` with an optional `.` fraction (after trimming), read as
      hours, minutes, seconds and the fraction's number; 60 seconds read as 59. Minutes and
      seconds that are not numbers read as 0, and a missing fraction as 0. Blank text, or a
      part before the first point that is not six characters long, is `null`. */
  function HandleTM(value: string): (r: Option<TimeParts>)
    ensures r.Some? <==> Trim(value) != [] && |Split(Trim(value), '.')[0]| == 6
    ensures r.Some? ==> r.value.seconds != Int(60) && !r.value.minutes.NaN? && !r.value.seconds.NaN?
  {
    var trimmed := Trim(value);
    if trimmed == [] then None
    else
      var parts := Split(trimmed, '.');
      if |parts[0]| == 6 then
        var hours := StringToNumber(Slice(value, 0, 2));
        var minutes := OrZero(StringToNumber(Slice(value, 2, 4)));
        var seconds := OrZero(StringToNumber(Slice(value, 4, 6)));
        var microseconds := if |parts| > 1 && parts[1] != [] then StringToNumber(parts[1]) else Int(0);
        Some(TimeParts(hours, minutes, if seconds == Int(60) then Int(59) else seconds, microseconds))
      else None
  }

  /** TM text: six digits, then optionally a point and a fraction. */
  function TimeText(main: string, fraction: string): string
  {
    if fraction == [] then main else main + "." + fraction
  }

  /** The parts of a time written `HHMMSS` with optional fraction digits: the numbers the
      digits denote, with 60 seconds read as 59 and a missing fraction as 0. */
  function TimeOfDigits(main: string, fraction: string): TimeParts
    requires |main| == 6 && AllDecimal(main) && AllDecimal(fraction)
  {
    var sec := DecimalValue(main[4..6]);
    TimeParts(Int(DecimalValue(main[0..2])), Int(DecimalValue(main[2..4])),
      Int(if sec == 60 then 59 else sec), Int(if fraction == [] then 0 else DecimalValue(fraction)))
  }

  /** The value of decimal digits. */
  function DecimalValue(s: string): nat
    requires AllDecimal(s)
  {
    assert AllDigitsOf(s, 10);
    ParseNat(s, 10)
  }

  /** A time written `HHMMSS`, optionally followed by `.` and fraction digits, gives its
      numbers. */
  lemma HandleTMDigits(main: string, fraction: string)
    requires |main| == 6 && AllDecimal(main) && AllDecimal(fraction)
    ensures HandleTM(TimeText(main, fraction)) == Some(TimeOfDigits(main, fraction))
  {
    var sec := OrZero(StringToNumber(main[4..6]));
    var read := TimeParts(StringToNumber(main[0..2]), OrZero(StringToNumber(main[2..4])),
      if sec == Int(60) then Int(59) else sec, if fraction == [] then Int(0) else StringToNumber(fraction));
    assert read == TimeOfDigits(main, fraction) by {
      SliceNumber(main, 0, 2);
      SliceNumber(main, 2, 4);
      SliceNumber(main, 4, 6);
      if fraction != [] {
        DigitsNumber(fraction);
      }
    }
    HandleTMText(main, fraction);
  }

  /** `handleTM` on digit text, before the digits are read as numbers. */
  lemma HandleTMText(main: string, fraction: string)
    requires |main| == 6 && AllDecimal(main) && AllDecimal(fraction)
    ensures var sec := OrZero(StringToNumber(main[4..6]));
      HandleTM(TimeText(main, fraction)) == Some(TimeParts(StringToNumber(main[0..2]),
        OrZero(StringToNumber(main[2..4])), if sec == Int(60) then Int(59) else sec,
        if fraction == [] then Int(0) else StringToNumber(fraction)))
  {
    var parts := TimeTextParts(main, fraction);
    HandleTMOf(TimeText(main, fraction), parts);
  }

  /** A non-empty slice of digits reads as its value, which `|| 0` keeps. */
  lemma SliceNumber(s: string, i: nat, j: nat)
    requires AllDecimal(s) && i < j <= |s|
    ensures AllDecimal(s[i..j])
    ensures StringToNumber(s[i..j]) == Int(DecimalValue(s[i..j])) && OrZero(StringToNumber(s[i..j])) == Int(DecimalValue(s[i..j]))
  {
    assert forall k :: 0 <= k < j - i ==> s[i..j][k] == s[i + k];
    DigitsNumber(s[i..j]);
  }

  /** Non-empty digits read as their value, which `|| 0` keeps. */
  lemma DigitsNumber(s: string)
    requires s != [] && AllDecimal(s)
    ensures StringToNumber(s) == Int(DecimalValue(s)) && OrZero(StringToNumber(s)) == Int(DecimalValue(s))
  {
    NumberOfDigits(s);
  }

  /** `handleTM` on untrimmed text with a six-character first piece. */
  lemma HandleTMOf(v: string, parts: seq<string>)
    requires Trim(v) != [] && Split(Trim(v), '.') == parts && |parts[0]| == 6
    ensures HandleTM(v) == Some(TimeParts(StringToNumber(Slice(v, 0, 2)), OrZero(StringToNumber(Slice(v, 2, 4))),
      if OrZero(StringToNumber(Slice(v, 4, 6))) == Int(60) then Int(59) else OrZero(StringToNumber(Slice(v, 4, 6))),
      if |parts| > 1 && parts[1] != [] then StringToNumber(parts[1]) else Int(0)))
  {
  }

  /** The trim and the pieces between points of a time written with digits. */
  lemma TimeTextParts(main: string, fraction: string) returns (parts: seq<string>)
    requires |main| == 6 && AllDecimal(main) && AllDecimal(fraction)
    ensures var v := TimeText(main, fraction);
      Trim(v) == v && Split(Trim(v), '.') == parts &&
      Slice(v, 0, 2) == main[0..2] && Slice(v, 2, 4) == main[2..4] && Slice(v, 4, 6) == main[4..6]
    ensures parts == (if fraction == [] then [main] else [main, fraction])
  {
    NoPoint(main);
    if fraction == [] {
      DecimalTrim(main);
      parts := [main];
      SplitJoin(parts, '.');
    } else {
      parts := FractionTextParts(main, fraction);
    }
  }

  lemma FractionTextParts(main: string, fraction: string) returns (parts: seq<string>)
    requires |main| == 6 && AllDecimal(main) && AllDecimal(fraction) && fraction != []
    requires '.' !in main
    ensures var v := main + "." + fraction;
      Trim(v) == v && Split(v, '.') == parts &&
      Slice(v, 0, 2) == main[0..2] && Slice(v, 2, 4) == main[2..4] && Slice(v, 4, 6) == main[4..6]
    ensures parts == [main, fraction]
  {
    var v := main + "." + fraction;
    parts := [main, fraction];
    assert Trim(v) == v by {
      EdgeDigitsTrim(main, fraction);
    }
    assert Split(v, '.') == parts by {
      NoPoint(fraction);
      JoinPair(main, fraction);
      SplitJoin(parts, '.');
    }
    FractionTextSlices(main, fraction);
  }

  /** The first six characters of a time with a fraction are the `HHMMSS` digits. */
  lemma FractionTextSlices(main: string, fraction: string)
    requires |main| == 6
    ensures var v := main + "." + fraction;
      Slice(v, 0, 2) == main[0..2] && Slice(v, 2, 4) == main[2..4] && Slice(v, 4, 6) == main[4..6]
  {
    var v := main + "." + fraction;
    assert forall i :: 0 <= i < 6 ==> v[i] == main[i];
  }

  lemma EdgeDigitsTrim(main: string, fraction: string)
    requires main != [] && fraction != [] && IsDecimalDigit(main[0]) && IsDecimalDigit(fraction[|fraction| - 1])
    ensures Trim(main + "." + fraction) == main + "." + fraction
  {
    var v := main + "." + fraction;
    assert v[0] == main[0] && v[|v| - 1] == fraction[|fraction| - 1];
    TrimNoWhiteSpace(v);
  }

  lemma JoinPair(a: string, b: string)
    ensures Join([a, b], '.') == a + "." + b
  {
    assert [a, b][1..] == [b];
  }

  lemma NoPoint(s: string)
    requires AllDecimal(s)
    ensures '.' !in s
  {
    assert forall i :: 0 <= i < |s| ==> IsDecimalDigit(s[i]);
  }
}
