/** The value converters: one per value representation (section 6.2 of DICOM PS3.5), chosen
    from the `converters` table by the VR of an element. */
module Converter {
  import opened Wrappers
  import opened Seqs
  import opened Text
  import opened Bytes
  import opened Bufferpack
  import opened JsNumber
  import opened Utf8
  import opened Helpers
  import opened MultiString
  import opened Dicom

  // ----- numbers -----

  /** The `bufferpack` letters the number converters are built with. */
  predicate IsNumberFormat(format: char)
  {
    format in "HhLlqQfd"
  }

  function FormatCode(format: char): (code: Code)
    requires IsNumberFormat(format)
    ensures CodeOf(format) == Some(code) && !code.CharsCode? && code.width in {2, 4, 8}
  {
    CodeOf(format).value
  }

  /** The values of `raw` read as consecutive `width`-byte numbers in the given byte order;
      bytes left over after the last whole value are ignored. */
  function PackedValues(code: Code, raw: seq<byte>, littleEndian: bool): (vs: seq<Field>)
    requires !code.CharsCode? && code.width > 0
    ensures |vs| == |raw| / code.width
  {
    var w := code.width;
    seq(|raw| / w, i requires 0 <= i < |raw| / w =>
      MulBound(i, |raw| / w, w, |raw|);
      DecodeOne(code, raw[i * w..i * w + w], littleEndian))
  }

  lemma MulBound(i: nat, n: nat, w: nat, len: nat)
    requires i < n && w > 0 && n == len / w
    ensures i * w + w <= len
  {
    MulSucc(i, w);
    MulMono(w, i + 1, n);
    assert n * w <= len;
  }

  /** `convertNumbers(format)(rawValue, isLittleEndian)`: unpacks as many whole values as the
      bytes hold; none gives `NaN`, one a bare number, more an array in on-wire order. */
  function ConvertNumbers(format: char, raw: seq<byte>, littleEndian: bool): (r: Value)
    requires IsNumberFormat(format)
    ensures var vs := PackedValues(FormatCode(format), raw, littleEndian);
      r == if |vs| == 0 then NotANumber else if |vs| == 1 then Numbers(One(vs[0])) else Numbers(Many(vs))
  {
    var code := FormatCode(format);
    var bytesPerValue := CalcLength("=" + [format]);
    BytesPerValue(format);
    var count := |raw| / bytesPerValue;
    var formatString := [GetEndianCharacter(littleEndian)] + NatToString(count, 10) + [format];
    UnpackCounted(littleEndian, count, format, code, raw);
    match Unpack(formatString, raw, 0)
    case None => Undefined
    case Some(values) =>
      if |values| == 0 then NotANumber else if |values| == 1 then Numbers(One(values[0])) else Numbers(Many(values))
  }

  /** `calcLength('=' + format)` is the width of one value. */
  lemma BytesPerValue(format: char)
    requires IsNumberFormat(format)
    ensures CalcLength("=" + [format]) == FormatCode(format).width
  {
    var s := "=" + [format];
    var code := FormatCode(format);
    assert s[1..] == [format];
    LastItem(format, code);
    assert ParseFormat(s) == Some(Format(false, [Item(1, code)]));
    assert ItemsLength([Item(1, code)]) == code.width;
  }

  /** Unpacking `<count><format>` reads exactly the packed values. */
  lemma UnpackCounted(littleEndian: bool, count: nat, format: char, code: Code, raw: seq<byte>)
    requires CodeOf(format) == Some(code) && !code.CharsCode? && code.width > 0
    requires count == |raw| / code.width
    ensures Unpack([GetEndianCharacter(littleEndian)] + NatToString(count, 10) + [format], raw, 0)
         == Some(PackedValues(code, raw, littleEndian))
  {
    var item := Item(count, code);
    CountedFormat(littleEndian, count, format, code);
    WholeValues(count, code.width, |raw|);
    UnpackLast(item, littleEndian, raw, 0);
    PackedRun(code, count, raw, littleEndian);
  }

  lemma WholeValues(count: nat, w: nat, len: nat)
    requires w > 0 && count == len / w
    ensures count * w <= len
  {
  }

  /** The run bufferpack decodes from the first `count` values' bytes is the packed values. */
  lemma PackedRun(code: Code, count: nat, raw: seq<byte>, littleEndian: bool)
    requires !code.CharsCode? && code.width > 0 && count == |raw| / code.width
    requires count * code.width <= |raw|
    ensures DecodeRun(code, count, raw[0..count * code.width], littleEndian) == PackedValues(code, raw, littleEndian)
  {
    var w := code.width;
    var b := raw[0..count * w];
    var run := DecodeRun(code, count, b, littleEndian);
    var vs := PackedValues(code, raw, littleEndian);
    forall i | 0 <= i < count ensures run[i] == vs[i] {
      DecodeRunAt(code, count, b, littleEndian, i, i * w);
      assert b[i * w..i * w + w] == raw[i * w..i * w + w];
    }
  }

  /** An unsigned value written in exactly one value's bytes, in either byte order, is read
      back as a bare number. */
  lemma ConvertNumbersSingle(format: char, code: Code, v: nat, littleEndian: bool)
    requires IsNumberFormat(format) && FormatCode(format) == code && code.UnsignedCode?
    requires v < Pow(256, code.width)
    ensures ConvertNumbers(format, Bytes.Encode(v, code.width, littleEndian), littleEndian)
         == Numbers(One(UInt(v)))
  {
    var w := code.width;
    var raw := Bytes.Encode(v, w, littleEndian);
    var vs := PackedValues(code, raw, littleEndian);
    assert |vs| == 1;
    assert raw[0 * w..0 * w + w] == raw;
    Bytes.DecodeEncode(v, w, littleEndian);
    assert vs[0] == UInt(v);
  }

  // ----- text -----

  /** The padding `_.trimEnd(text, '\0 ')` removes from UI and PN values. */
  const NulAndSpace: set<char> := {'\0', ' '}

  /** `convertUI` (and `convertPN`, which has the same body): the decoded text without its
      trailing NUL and space padding, split on backslashes. */
  function ConvertUI(raw: seq<byte>): (r: Value)
    ensures r.Strings?
    ensures Join(Values(r.strings), Backslash) == TrimEndChars(DecodeToText(raw), NulAndSpace)
  {
    Strings(GetMultiString(TrimEndChars(DecodeToText(raw), NulAndSpace)))
  }

  /** `convertText` (and `convertString`, which has the same body): the decoded text split on
      backslashes, with nothing trimmed. */
  function ConvertText(raw: seq<byte>): (r: Value)
    ensures r.Strings?
    ensures Join(Values(r.strings), Backslash) == DecodeToText(raw)
    ensures |Values(r.strings)| == multiset(DecodeToText(raw))[Backslash] + 1
  {
    Strings(GetMultiString(DecodeToText(raw)))
  }

  /** UI and PN values written as backslash-separated text and padded to even length with NULs
      or spaces come back as the values written, without the padding. */
  lemma ConvertUIRoundTrip(values: seq<string>, pad: string)
    requires |values| >= 1
    requires forall i :: 0 <= i < |values| ==> Backslash !in values[i]
    requires var last := values[|values| - 1]; last == [] || last[|last| - 1] !in NulAndSpace
    requires Join(values, Backslash) == [] || Join(values, Backslash)[0] != '\U{FEFF}'
    requires forall i :: 0 <= i < |pad| ==> pad[i] in NulAndSpace
    ensures Values(ConvertUI(Utf8.Encode(Join(values, Backslash) + pad)).strings) == values
  {
    var text := Join(values, Backslash);
    var last := values[|values| - 1];
    assert (text + pad) == [] || (text + pad)[0] != '\U{FEFF}' by {
      if text == [] && pad != [] {
        assert (text + pad)[0] == pad[0];
      }
    }
    DecodeToTextEncode(text + pad);
    assert DecodeToText(Utf8.Encode(text + pad)) == text + pad;
    assert text == [] || text[|text| - 1] !in NulAndSpace by {
      JoinSuffix(values, Backslash);
      if text != [] && last == [] {
        assert |values| >= 2;
      }
    }
    TrimEndCharsPadded(text, pad, NulAndSpace);
    GetMultiStringJoin(values);
  }

  /** Text values written as backslash-separated text come back exactly, padding included. */
  lemma ConvertTextRoundTrip(values: seq<string>)
    requires |values| >= 1
    requires forall i :: 0 <= i < |values| ==> Backslash !in values[i]
    requires Join(values, Backslash) == [] || Join(values, Backslash)[0] != '\U{FEFF}'
    ensures Values(ConvertText(Utf8.Encode(Join(values, Backslash))).strings) == values
  {
    DecodeToTextEncode(Join(values, Backslash));
    GetMultiStringJoin(values);
  }

  /** An IS or DS value holding an integer's text, padded with spaces, reads back as that
      integer. */
  lemma ConvertISRoundTrip(i: int, lead: string, trail: string)
    requires forall k :: 0 <= k < |lead| ==> lead[k] == ' '
    requires forall k :: 0 <= k < |trail| ==> trail[k] == ' '
    ensures ConvertISString(Utf8.Encode(lead + IntToString(i, 10) + trail)) == Number(Int(i))
  {
    PaddedIntText(i, lead, trail);
  }

  /** The padded text of an integer survives the UTF-8 round trip and reads as the integer. */
  lemma PaddedIntText(i: int, lead: string, trail: string)
    requires forall k :: 0 <= k < |lead| ==> lead[k] == ' '
    requires forall k :: 0 <= k < |trail| ==> trail[k] == ' '
    ensures var text := lead + IntToString(i, 10) + trail;
      DecodeToText(Utf8.Encode(text)) == text && StringToNumber(text) == Int(i)
  {
    var text := lead + IntToString(i, 10) + trail;
    assert text[0] == ' ' || text[0] == IntToString(i, 10)[0];
    DecodeToTextEncode(text);
    NumberOfPaddedIntString(i, lead, trail);
  }

  /** `convertDAString`: the text values, each read as a date. */
  function ConvertDAString(raw: seq<byte>): (r: Value)
    ensures r.Dates?
    ensures var texts := Values(ConvertText(raw).strings);
      |Values(r.dates)| == |texts| &&
      forall i :: 0 <= i < |texts| ==> Values(r.dates)[i] == HandleDA(texts[i])
  {
    Dates(HandleMultiString(ConvertText(raw).strings, HandleDA))
  }

  /** `convertTMString`: the text values, each read as a time. */
  function ConvertTMString(raw: seq<byte>): (r: Value)
    ensures r.Times?
    ensures var texts := Values(ConvertText(raw).strings);
      |Values(r.times)| == |texts| &&
      forall i :: 0 <= i < |texts| ==> Values(r.times)[i] == HandleTM(texts[i])
  {
    Times(HandleMultiString(ConvertText(raw).strings, HandleTM))
  }

  /** `convertISString` (and `convertDSString`, which has the same body): `Number` of the
      trimmed text. Text that is not a number gives `NaN`; nothing fails. */
  function ConvertISString(raw: seq<byte>): (r: Value)
    ensures r.Number?
    ensures r.number == StringToNumber(DecodeToText(raw))
  {
    NumberIgnoresPadding(DecodeToText(raw));
    Number(StringToNumber(Trim(DecodeToText(raw))))
  }

  // ----- the table -----

  /** The converter functions of the table. */
  datatype Converter =
    | NumbersOf(format: char)
    | BytesAsIs           // convertOB
    | Text                // convertText, convertString
    | TrimmedText         // convertUI, convertPN
    | DateText            // convertDAString
    | TimeText            // convertTMString
    | NumberText          // convertISString, convertDSString
    | NotImplementedYet

  /** The `converters` table: the converter of a VR, if the table has one. */
  function ConverterOf(vr: string): Option<Converter>
  {
    if vr == "OB or OW" then Some(BytesAsIs) else
    if vr == "LO" then Some(Text) else
    if vr == "OB" then Some(BytesAsIs) else
    if vr == "OD" then Some(BytesAsIs) else
    if vr == "OL" then Some(BytesAsIs) else
    if vr == "SH" then Some(Text) else
    if vr == "UC" then Some(Text) else
    if vr == "UI" then Some(TrimmedText) else
    if vr == "UL" then Some(NumbersOf('L')) else
    if vr == "AE" then Some(NotImplementedYet) else
    if vr == "OF" then Some(NotImplementedYet) else
    if vr == "AS" then Some(Text) else
    if vr == "AT" then Some(NotImplementedYet) else
    if vr == "CS" then Some(Text) else
    if vr == "DA" then Some(DateText) else
    if vr == "DS" then Some(NumberText) else
    if vr == "DT" then Some(NotImplementedYet) else
    if vr == "FD" then Some(NumbersOf('d')) else
    if vr == "FL" then Some(NumbersOf('f')) else
    if vr == "IS" then Some(NumberText) else
    if vr == "LT" then Some(NotImplementedYet) else
    if vr == "OV" then Some(NotImplementedYet) else
    if vr == "OW" then Some(NotImplementedYet) else
    if vr == "PN" then Some(TrimmedText) else
    if vr == "SL" then Some(NumbersOf('l')) else
    if vr == "SQ" then Some(NotImplementedYet) else
    if vr == "SS" then Some(NumbersOf('h')) else
    if vr == "ST" then Some(NotImplementedYet) else
    if vr == "SV" then Some(NumbersOf('q')) else
    if vr == "TM" then Some(TimeText) else
    if vr == "UN" then Some(NotImplementedYet) else
    if vr == "UR" then Some(NotImplementedYet) else
    if vr == "US" then Some(NumbersOf('H')) else
    if vr == "UT" then Some(NotImplementedYet) else
    if vr == "UV" then Some(NumbersOf('Q')) else
    if vr == "US or OW" then Some(NotImplementedYet) else
    if vr == "US or SS or OW" then Some(NotImplementedYet) else
    if vr == "US or SS" then Some(NotImplementedYet) else
    None
  }

  /** `vr in converters`. */
  predicate HasConverter(vr: string)
  {
    ConverterOf(vr).Some?
  }

  predicate WellFormedConverter(c: Converter)
  {
    c.NumbersOf? ==> IsNumberFormat(c.format)
  }

  lemma ConverterWellFormed(vr: string)
    requires HasConverter(vr)
    ensures WellFormedConverter(ConverterOf(vr).value)
  {
  }

  /** Applies one converter of the table. */
  function Apply(c: Converter, raw: seq<byte>, littleEndian: bool): Value
    requires WellFormedConverter(c)
  {
    match c
    case NumbersOf(format) => ConvertNumbers(format, raw, littleEndian)
    case BytesAsIs => Raw(raw)
    case Text => ConvertText(raw)
    case TrimmedText => ConvertUI(raw)
    case DateText => ConvertDAString(raw)
    case TimeText => ConvertTMString(raw)
    case NumberText => ConvertISString(raw)
    case NotImplementedYet => Undefined
  }

  /** `convertValue(VR, tagInfo, isLittleEndian)`: the table's converter for the VR applied to
      the raw bytes; `undefined` when the table has none. */
  function ConvertValue(vr: string, raw: seq<byte>, littleEndian: bool): (r: Value)
    ensures !HasConverter(vr) ==> r == Undefined
  {
    if HasConverter(vr) then
      ConverterWellFormed(vr);
      Apply(ConverterOf(vr).value, raw, littleEndian)
    else Undefined
  }

  /** The OB, OD, OL and "OB or OW" values are the raw bytes, unconverted. */
  lemma ConvertValueRaw(vr: string, raw: seq<byte>, littleEndian: bool)
    requires vr in {"OB", "OD", "OL", "OB or OW"}
    ensures ConvertValue(vr, raw, littleEndian) == Raw(raw)
  {
    assert ConverterOf(vr) == Some(BytesAsIs);
  }

  /** Only the `notImplementedYet` converter gives `undefined`. */
  lemma ApplyUndefined(c: Converter, raw: seq<byte>, littleEndian: bool)
    requires WellFormedConverter(c)
    ensures Apply(c, raw, littleEndian) == Undefined <==> c == NotImplementedYet
  {
  }

  /** A value is `undefined` exactly when the VR has no converter or its converter is
      `notImplementedYet` (AE, OF, AT, DT, LT, OV, OW, SQ, ST, UN, UR, UT and the three
      "US or ..." VRs); every other converter produces a value. */
  lemma ConvertValueUndefined(vr: string, raw: seq<byte>, littleEndian: bool)
    ensures ConvertValue(vr, raw, littleEndian) == Undefined <==>
      !HasConverter(vr) || ConverterOf(vr).value == NotImplementedYet
  {
    if HasConverter(vr) {
      ConverterWellFormed(vr);
      ApplyUndefined(ConverterOf(vr).value, raw, littleEndian);
    }
  }
}
