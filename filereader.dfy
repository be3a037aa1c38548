/** The older revision of the stream reader. It shares the preamble check and the record
    header layout with `Parse`, but differs in how it reads and stores records:
    - it has two reading loops, one for implicit VR and one for explicit VR;
    - it keeps each record under its eight hexadecimal digits, so a repeated tag replaces
      the earlier one;
    - it needs a dictionary entry for every stored tag;
    - it never falls back to the implicit layout.
    It also sizes pixel data and names the typed array a pixel buffer would be viewed as. */
module FileReader {
  import opened Wrappers
  import opened Seqs
  import opened Text
  import opened Bytes
  import opened Bufferpack
  import opened Helpers
  import opened Dicom
  import opened Converter
  import TagHelpers
  import Parse
  import PixelData

  // ----- tags -----

  /** The eight hexadecimal digits of a tag, `${hexGroup}${hexElement}`. */
  function HexKey(group: nat, element: nat): (key: string)
    ensures |key| == 8
    ensures key[..4] == GetHexRepresentation(group, element).0
    ensures key[4..] == GetHexRepresentation(group, element).1
  {
    var (hexGroup, hexElement) := GetHexRepresentation(group, element);
    hexGroup + hexElement
  }

  /** For 16-bit numbers the key is read back as the group and the element, so two tags
      share a key only when they are the same tag. */
  lemma HexKeyRoundTrip(group: nat, element: nat)
    requires group < 0x10000 && element < 0x10000
    ensures ParseNat(HexKey(group, element)[..4], 16) == group
    ensures ParseNat(HexKey(group, element)[4..], 16) == element
  {
    HexRepresentationRoundTrip(group, element);
  }

  /** `getTagInfo(rawValue, length, group, element, VR)` of this revision: throws when group,
      element and VR are all falsy; keeps a VR it is given; otherwise reads the VR of the
      dictionary entry, which must exist. */
  function GetTagInfo(tables: Tables, rawValue: seq<byte>, length: nat, group: nat, element: nat, vr: string)
    : (r: Result<TagHelpers.TagInfo, Error>)
    ensures group == 0 && element == 0 && vr == "" ==> r == Failure(MissingTagIdentity)
    ensures vr != "" ==> r == Success(TagHelpers.TagInfo(rawValue, length, vr))
    ensures (group != 0 || element != 0) && vr == "" ==>
      var key := HexKey(group, element);
      (r.Failure? <==> key !in tables.dictionary) &&
      (r.Failure? ==> r.error == UndefinedDictionaryEntry) &&
      (r.Success? ==> r.value == TagHelpers.TagInfo(rawValue, length, tables.dictionary[key].vr))
  {
    if group == 0 && element == 0 && vr == "" then Failure(MissingTagIdentity)
    else if vr != "" then Success(TagHelpers.TagInfo(rawValue, length, vr))
    else
      var key := HexKey(group, element);
      if key !in tables.dictionary then Failure(UndefinedDictionaryEntry)
      else Success(TagHelpers.TagInfo(rawValue, length, tables.dictionary[key].vr))
  }

  /** `createTag(group, element, values)` of this revision: the dictionary entry of the tag
      must exist, whatever the group; the VR given wins over the dictionary's. */
  function CreateTag(tables: Tables, group: nat, element: nat, values: TagValues): (r: Result<Tag, Error>)
    ensures var key := HexKey(group, element);
      (r.Failure? <==> key !in tables.dictionary) &&
      (r.Failure? ==> r.error == UndefinedDictionaryEntry) &&
      (r.Success? ==>
        var entry := tables.dictionary[key];
        var t := r.value;
        t.representation == key &&
        t.representations.group == group && t.representations.element == element &&
        t.representations.tuple == [key[..4], key[4..]] && t.representations.str == key &&
        t.representations.name == entry.name &&
        t.vr == (if values.vr != "" then values.vr else entry.vr) &&
        t.length == values.length && t.rawValue == values.rawValue && t.value == values.value &&
        t.name == entry.name && t.vm == entry.vm && t.keyword == entry.keyword && t.retired == entry.retired)
  {
    var (hexGroup, hexElement) := GetHexRepresentation(group, element);
    var stringRepresentation := hexGroup + hexElement;
    if stringRepresentation !in tables.dictionary then Failure(UndefinedDictionaryEntry)
    else
      var entry := tables.dictionary[stringRepresentation];
      var representations := Representations(group, element, hexGroup, hexElement,
        [hexGroup, hexElement], stringRepresentation, entry.name);
      Success(Tag(if values.vr != "" then values.vr else entry.vr,
        values.length, values.rawValue, values.value, representations, stringRepresentation,
        entry.name, entry.vm, entry.keyword, entry.retired))
  }

  /** Unlike the later revision, a private tag or a group length tag the dictionary does not
      list cannot be created. */
  lemma NoSpecialTags(tables: Tables, group: nat, element: nat, values: TagValues)
    requires HexKey(group, element) !in tables.dictionary
    requires TagHelpers.IsPrivateGroup(group) || element == 0
    ensures CreateTag(tables, group, element, values).Failure?
    ensures TagHelpers.IsPrivateGroup(group) ==> TagHelpers.CreateTag(tables, group, element, values).Success?
    ensures element == 0 ==> TagHelpers.CreateTag(tables, group, element, values).Success?
  {
    if element == 0 && !TagHelpers.IsPrivateGroup(group) {
      TagHelpers.GroupLengthTag(tables, tables.dictionary, group, values);
    }
  }

  // ----- implicit or explicit VR -----

  /** `_isImplicitVr(bytes, cursor, isImplicitVRAssumed, isLittleEndian, isSequence, stopWhen)`
      of this revision: the byte order and the stop predicate are only logged. */
  function IsImplicitVr(bytes: seq<byte>, cursor: nat, assumed: bool, isSequence: bool): (r: bool)
    ensures var data := GetArrayRange(bytes, cursor, 6);
      r == ((isSequence && assumed) ||
            (if |data| < 6 then assumed else !(Parse.InRange(bytes[cursor + 4], 0x40, 0x5b) && Parse.InRange(bytes[cursor + 5], 0x40, 0x5b))))
  {
    if isSequence && assumed then true
    else
      var data := GetArrayRange(bytes, cursor, 6);
      var (tagBytes, rawVR) := SplitArray(data, 4);
      if |rawVR| < 2 then assumed
      else Parse.LooksImplicit(rawVR)
  }

  /** The two revisions decide the VR encoding the same way. */
  lemma SameVrDecision(bytes: seq<byte>, cursor: nat, assumed: bool, littleEndian: bool, isSequence: bool, stopWhen: Parse.StopWhen)
    ensures IsImplicitVr(bytes, cursor, assumed, isSequence)
         == Parse.IsImplicitVr(bytes, cursor, assumed, littleEndian, isSequence, stopWhen)
  {
  }

  // ----- one record -----

  /** The eight header bytes as `getEndianPattern(isLittleEndian, isImplicitVR)` unpacks
      them: group, element, the VR (none in implicit mode) and the length field. */
  function HeaderOf(tagInfo: seq<byte>, implicitVR: bool, littleEndian: bool): (h: Parse.Header)
    requires |tagInfo| == Parse.TagLength
    ensures h.group < 0x10000 && h.element < 0x10000 && h.size == Parse.TagLength
    ensures !implicitVR ==> |h.vr| == 2
  {
    UnsignedBound(tagInfo[0..2], littleEndian);
    UnsignedBound(tagInfo[2..4], littleEndian);
    assert Pow(256, 2) == 0x10000;
    if implicitVR then
      Parse.Header(Unsigned(tagInfo[0..2], littleEndian), Unsigned(tagInfo[2..4], littleEndian), "",
        Unsigned(tagInfo[4..8], littleEndian), Parse.TagLength)
    else
      Parse.Header(Unsigned(tagInfo[0..2], littleEndian), Unsigned(tagInfo[2..4], littleEndian), ArrayToText(tagInfo[4..6]),
        Unsigned(tagInfo[6..8], littleEndian), Parse.TagLength)
  }

  /** `HeaderOf` gives the fields `bufferpack` unpacks with the element pattern. */
  lemma HeaderOfUnpack(tagInfo: seq<byte>, implicitVR: bool, littleEndian: bool)
    requires |tagInfo| == Parse.TagLength
    ensures var fields := Unpack(GetEndianPattern(littleEndian, implicitVR), tagInfo, 0);
      var h := HeaderOf(tagInfo, implicitVR, littleEndian);
      fields.Some? && |fields.value| == (if implicitVR then 3 else 4) &&
      fields.value[0] == UInt(h.group) && fields.value[1] == UInt(h.element) &&
      (implicitVR ==> fields.value[2] == UInt(h.length)) &&
      (!implicitVR ==> fields.value[2] == Str(h.vr) && fields.value[3] == UInt(h.length))
  {
    Parse.HeaderFields(littleEndian, implicitVR, tagInfo);
  }

  /** The explicit loop's `trueLength`: a VR listed with a 32-bit length reads it from the
      four bytes after the header (destructuring the `undefined` of a short unpack throws);
      any other header keeps its length. */
  function TrueLength(tables: Tables, data: seq<byte>, pos: nat, h: Parse.Header, implicitVR: bool, littleEndian: bool)
    : (r: Result<Parse.Header, Error>)
    requires h.size == Parse.TagLength
    ensures r.Success? ==> r.value.group == h.group && r.value.element == h.element && r.value.vr == h.vr
    ensures r.Success? ==> r.value.size in {Parse.TagLength, Parse.TagLength + 4}
  {
    if !implicitVR && h.vr in tables.extraLengthVRs then
      var extraLengthInfo := GetArrayRange(data, pos + Parse.TagLength, 4);
      if |extraLengthInfo| < 4 then Failure(TruncatedUnpack)
      else Success(h.(length := Unsigned(extraLengthInfo[0..4], littleEndian), size := Parse.TagLength + 4))
    else Success(h)
  }

  /** `TrueLength` reads the extra length the way `bufferpack` unpacks the pattern `<L` or
      `>L`, which gives nothing for fewer than four bytes. */
  lemma TrueLengthUnpack(tables: Tables, data: seq<byte>, pos: nat, h: Parse.Header, littleEndian: bool)
    requires h.size == Parse.TagLength && h.vr in tables.extraLengthVRs
    ensures var extra := GetArrayRange(data, pos + Parse.TagLength, 4);
      var unpacked := Unpack([GetEndianCharacter(littleEndian)] + "L", extra, 0);
      var r := TrueLength(tables, data, pos, h, false, littleEndian);
      (r.Failure? <==> unpacked.None?) &&
      (r.Success? ==> unpacked.value == [UInt(r.value.length)] && r.value.size == Parse.TagLength + 4)
  {
    Parse.ExtraLengthUnpack(littleEndian, GetArrayRange(data, pos + Parse.TagLength, 4));
  }

  /** A record is stored when its length is defined and not zero; in this revision a VR of
      "NONE" is stored like any other. */
  predicate Stored(h: Parse.Header)
  {
    h.length != Parse.UndefinedLength && h.length > 0
  }

  /** `dataset[tag.representation] = tag` for a record: the VR resolved, the value converted
      with it, the tag created and assigned under its eight hexadecimal digits, replacing
      a tag read before under the same digits. */
  function StoreTag(tables: Tables, value: seq<byte>, h: Parse.Header, littleEndian: bool, ds: Dataset)
    : Result<Dataset, Error>
  {
    match GetTagInfo(tables, value, h.length, h.group, h.element, h.vr)
    case Failure(e) => Failure(e)
    case Success(tagInfo) =>
      var values := TagValues(h.vr, h.length, value, ConvertValue(tagInfo.vr, tagInfo.rawValue, littleEndian));
      match CreateTag(tables, h.group, h.element, values)
      case Failure(e) => Failure(e)
      case Success(tag) =>
        Success(Put(ds, tag.representation, tag))
  }

  /** What storing a record does: it fails exactly when group, element and VR are all
      missing or the dictionary has no entry under the digits; otherwise the tag under the
      digits carries the resolved VR, the value converted with it, the raw bytes, the length,
      the keyword and the numbers, and no other key changes. */
  lemma StoreTagSpec(tables: Tables, value: seq<byte>, h: Parse.Header, littleEndian: bool, ds: Dataset)
    ensures var r := StoreTag(tables, value, h, littleEndian, ds);
      var key := HexKey(h.group, h.element);
      (r.Failure? <==> (h.group == 0 && h.element == 0 && h.vr == "") || key !in tables.dictionary) &&
      (r.Success? ==>
        var entry := tables.dictionary[key];
        var vr := if h.vr != "" then h.vr else entry.vr;
        Get(r.value, key).Some? &&
        var t := Get(r.value, key).value;
        t.representation == key && t.vr == vr && t.value == ConvertValue(vr, value, littleEndian) &&
        t.rawValue == value && t.length == h.length && t.keyword == entry.keyword &&
        t.representations.group == h.group && t.representations.element == h.element &&
        Keys(r.value) == Keys(ds) + {key} &&
        (key in Keys(ds) ==> |r.value| == |ds|) &&
        (forall k :: k != key ==> Get(r.value, k) == Get(ds, k)) &&
        (DistinctKeys(ds) ==> DistinctKeys(r.value)) &&
        (forall i :: 0 <= i < |r.value| ==> r.value[i] in ds || r.value[i] == Record(key, t)))
  {
    match GetTagInfo(tables, value, h.length, h.group, h.element, h.vr)
    case Failure(e) =>
    case Success(tagInfo) =>
      var values := TagValues(h.vr, h.length, value, ConvertValue(tagInfo.vr, tagInfo.rawValue, littleEndian));
      match CreateTag(tables, h.group, h.element, values)
      case Failure(e) =>
      case Success(tag) =>
        PutRecords(ds, tag.representation, tag);
  }

  /** Each record after an assignment is one that was there before or the assigned one. */
  lemma PutRecords(ds: Dataset, key: string, tag: Tag)
    ensures var r := Put(ds, key, tag);
      forall i :: 0 <= i < |r| ==> r[i] in ds || r[i] == Record(key, tag)
  {
    var r := Put(ds, key, tag);
    forall i | 0 <= i < |r| ensures r[i] in ds || r[i] == Record(key, tag) {
      if r[i] != Record(key, tag) {
        assert r[i] == ds[i];
      }
    }
  }

  /** The storing step of this revision's `readDataset`. The loop below is written over a
      step of this type so that its proofs do not unfold the step. */
  function Keying(tables: Tables, littleEndian: bool): Parse.Store
  {
    (h: Parse.Header, value: seq<byte>, ds: Dataset) => StoreTag(tables, value, h, littleEndian, ds)
  }

  /** The rest of a turn after the header: the extra length read when the VR has one, the
      value skipped, and the record stored when its length is defined and not zero. The loop
      goes on from the position given. */
  function Advance(store: Parse.Store, tables: Tables, data: seq<byte>, pos: nat, h: Parse.Header, implicitVR: bool, littleEndian: bool, ds: Dataset)
    : (r: Result<(Dataset, nat), Error>)
    requires h.size == Parse.TagLength
    ensures var t := TrueLength(tables, data, pos, h, implicitVR, littleEndian);
      (t.Failure? ==> r == Failure(t.error)) &&
      (t.Success? && !Stored(t.value) ==> r == Success((ds, pos + t.value.size))) &&
      (t.Success? && Stored(t.value) ==>
        var stored := store(t.value, GetArrayRange(data, pos + t.value.size, t.value.length), ds);
        (r.Failure? <==> stored.Failure?) &&
        (r.Failure? ==> r.error == stored.error) &&
        (r.Success? ==> r.value == (stored.value, pos + t.value.size + t.value.length)))
  {
    match TrueLength(tables, data, pos, h, implicitVR, littleEndian)
    case Failure(e) => Failure(e)
    case Success(h') =>
      var valueStart := pos + h'.size;
      if Stored(h') then
        match store(h', GetArrayRange(data, valueStart, h'.length), ds)
        case Failure(e) => Failure(e)
        case Success(ds') => Success((ds', valueStart + h'.length))
      else Success((ds, valueStart))
  }

  /** `Advance` where the record is not stored: the cursor moves past the header. */
  lemma AdvanceSkips(store: Parse.Store, tables: Tables, data: seq<byte>, pos: nat, h: Parse.Header, implicitVR: bool, littleEndian: bool, ds: Dataset, h': Parse.Header)
    requires h.size == Parse.TagLength
    requires TrueLength(tables, data, pos, h, implicitVR, littleEndian) == Success(h') && !Stored(h')
    ensures Advance(store, tables, data, pos, h, implicitVR, littleEndian, ds) == Success((ds, pos + h'.size))
  {
  }

  /** `Advance` where the record is stored: the cursor moves past the header and the value. */
  lemma AdvanceStores(store: Parse.Store, tables: Tables, data: seq<byte>, pos: nat, h: Parse.Header, implicitVR: bool, littleEndian: bool, ds: Dataset, h': Parse.Header, ds': Dataset)
    requires h.size == Parse.TagLength
    requires TrueLength(tables, data, pos, h, implicitVR, littleEndian) == Success(h') && Stored(h')
    requires store(h', GetArrayRange(data, pos + h'.size, h'.length), ds) == Success(ds')
    ensures Advance(store, tables, data, pos, h, implicitVR, littleEndian, ds) == Success((ds', pos + h'.size + h'.length))
  {
  }

  /** `Advance` where the extra length cannot be read or the record cannot be stored. */
  lemma AdvanceThrows(store: Parse.Store, tables: Tables, data: seq<byte>, pos: nat, h: Parse.Header, implicitVR: bool, littleEndian: bool, ds: Dataset, e: Error)
    requires h.size == Parse.TagLength
    requires var t := TrueLength(tables, data, pos, h, implicitVR, littleEndian);
      t == Failure(e) ||
      (t.Success? && Stored(t.value) && store(t.value, GetArrayRange(data, pos + t.value.size, t.value.length), ds) == Failure(e))
    ensures Advance(store, tables, data, pos, h, implicitVR, littleEndian, ds) == Failure(e)
  {
  }

  /** How far a turn moves the cursor: eight header bytes (twelve with an extra length) and
      the value when it is stored. */
  lemma AdvanceMoves(store: Parse.Store, tables: Tables, data: seq<byte>, pos: nat, h: Parse.Header, implicitVR: bool, littleEndian: bool, ds: Dataset)
    requires h.size == Parse.TagLength
    requires Advance(store, tables, data, pos, h, implicitVR, littleEndian, ds).Success?
    ensures var next := Advance(store, tables, data, pos, h, implicitVR, littleEndian, ds).value.1;
      var extra := !implicitVR && h.vr in tables.extraLengthVRs;
      var length := if extra then Unsigned(GetArrayRange(data, pos + 8, 4)[0..4], littleEndian) else h.length;
      next == pos + (if extra then 12 else 8) +
        (if length != Parse.UndefinedLength && length > 0 then length else 0)
  {
  }

  // ----- the reading loops -----

  /** The `while (true)` loops of this revision's `readDataset` from position `pos` of the
      region, with the records gathered so far. A loop ends when fewer than eight bytes
      remain, or at a record whose group the stop predicate holds for; that test comes before
      the extra length is read. */
  function ReadLoop(store: Parse.Store, tables: Tables, data: seq<byte>, pos: nat, implicitVR: bool, littleEndian: bool, stopWhen: Parse.StopWhen, ds: Dataset)
    : (r: Result<(Dataset, nat), Error>)
    ensures r.Success? ==> r.value.1 >= pos
    decreases |data| - pos
  {
    var tagInfo := GetArrayRange(data, pos, Parse.TagLength);
    if |tagInfo| != Parse.TagLength then Success((ds, pos))
    else
      var h := HeaderOf(tagInfo, implicitVR, littleEndian);
      if Parse.Stops(stopWhen, h.group) then Success((ds, pos))
      else
        match Advance(store, tables, data, pos, h, implicitVR, littleEndian, ds)
        case Failure(e) => Failure(e)
        case Success((ds', next)) => ReadLoop(store, tables, data, next, implicitVR, littleEndian, stopWhen, ds')
  }

  /** A record as this revision keeps it: under the eight hexadecimal digits of its 16-bit
      group and element, which are also its representation, and in a group the stop
      predicate does not hold for. */
  predicate HexKeyed(rec: Record, stopWhen: Parse.StopWhen)
  {
    var t := rec.tag;
    t.representations.group < 0x10000 && t.representations.element < 0x10000 &&
    rec.key == t.representation && rec.key == HexKey(t.representations.group, t.representations.element) &&
    !Parse.Stops(stopWhen, t.representations.group)
  }

  predicate AllHexKeyed(ds: Dataset, stopWhen: Parse.StopWhen)
  {
    forall i :: 0 <= i < |ds| ==> HexKeyed(ds[i], stopWhen)
  }

  /** Storing a record whose group the stop predicate does not hold for keeps every record
      keyed by its own digits and the keys distinct. */
  predicate KeepsHexKeyed(stopWhen: Parse.StopWhen, h: Parse.Header, ds: Dataset, r: Result<Dataset, Error>)
  {
    h.group < 0x10000 && h.element < 0x10000 && !Parse.Stops(stopWhen, h.group) &&
    AllHexKeyed(ds, stopWhen) && DistinctKeys(ds) && r.Success? ==>
      AllHexKeyed(r.value, stopWhen) && DistinctKeys(r.value)
  }

  ghost predicate StoresHexKeyed(store: Parse.Store, stopWhen: Parse.StopWhen)
  {
    forall h: Parse.Header, value: seq<byte>, ds: Dataset :: KeepsHexKeyed(stopWhen, h, ds, store(h, value, ds))
  }

  lemma StoreKeepsKeyed(tables: Tables, value: seq<byte>, h: Parse.Header, littleEndian: bool, ds: Dataset, stopWhen: Parse.StopWhen)
    ensures KeepsHexKeyed(stopWhen, h, ds, StoreTag(tables, value, h, littleEndian, ds))
  {
    var stored := StoreTag(tables, value, h, littleEndian, ds);
    StoreTagSpec(tables, value, h, littleEndian, ds);
    if h.group < 0x10000 && h.element < 0x10000 && !Parse.Stops(stopWhen, h.group) &&
       AllHexKeyed(ds, stopWhen) && DistinctKeys(ds) && stored.Success? {
      var r := stored.value;
      var key := HexKey(h.group, h.element);
      forall i | 0 <= i < |r| ensures HexKeyed(r[i], stopWhen) {
        if r[i] !in ds {
          assert r[i] == Record(key, Get(r, key).value);
        }
      }
    }
  }

  /** The storing step of this revision keeps records keyed by their digits. */
  lemma KeyingHexKeyed(tables: Tables, littleEndian: bool, stopWhen: Parse.StopWhen)
    ensures StoresHexKeyed(Keying(tables, littleEndian), stopWhen)
  {
    forall h: Parse.Header, value: seq<byte>, ds: Dataset
      ensures KeepsHexKeyed(stopWhen, h, ds, Keying(tables, littleEndian)(h, value, ds))
    {
      StoreKeepsKeyed(tables, value, h, littleEndian, ds, stopWhen);
    }
  }

  /** Every record the loop keeps is keyed by its own digits, and the keys stay distinct. */
  lemma {:induction false} ReadLoopKeys(store: Parse.Store, tables: Tables, data: seq<byte>, pos: nat, implicitVR: bool, littleEndian: bool, stopWhen: Parse.StopWhen, ds: Dataset)
    requires StoresHexKeyed(store, stopWhen)
    requires ReadLoop(store, tables, data, pos, implicitVR, littleEndian, stopWhen, ds).Success?
    requires AllHexKeyed(ds, stopWhen) && DistinctKeys(ds)
    ensures var res := ReadLoop(store, tables, data, pos, implicitVR, littleEndian, stopWhen, ds).value.0;
      AllHexKeyed(res, stopWhen) && DistinctKeys(res)
    decreases |data| - pos
  {
    var tagInfo := GetArrayRange(data, pos, Parse.TagLength);
    if |tagInfo| == Parse.TagLength {
      var h := HeaderOf(tagInfo, implicitVR, littleEndian);
      if !Parse.Stops(stopWhen, h.group) {
        var added := Advance(store, tables, data, pos, h, implicitVR, littleEndian, ds);
        var (ds', next) := added.value;
        var h' := TrueLength(tables, data, pos, h, implicitVR, littleEndian).value;
        if Stored(h') {
          var value := GetArrayRange(data, pos + h'.size, h'.length);
          assert KeepsHexKeyed(stopWhen, h', ds, store(h', value, ds));
        }
        ReadLoopKeys(store, tables, data, next, implicitVR, littleEndian, stopWhen, ds');
      }
    }
  }

  /** In a dataset of this revision a tag is found under its eight hexadecimal digits. */
  lemma FoundByHexKey(ds: Dataset, stopWhen: Parse.StopWhen, i: nat)
    requires AllHexKeyed(ds, stopWhen) && DistinctKeys(ds)
    requires i < |ds|
    ensures var t := ds[i].tag;
      Get(ds, HexKey(t.representations.group, t.representations.element)) == Some(t)
  {
    var key := ds[i].key;
    var j := IndexOfKey(ds, key);
    assert HexKeyed(ds[i], stopWhen);
    assert j == i;
  }

  /** The loop where fewer than eight bytes remain, or at a header the stop predicate holds
      for: it ends there with the records it was given. */
  lemma LoopBreaks(store: Parse.Store, tables: Tables, data: seq<byte>, pos: nat, implicitVR: bool, littleEndian: bool, stopWhen: Parse.StopWhen, ds: Dataset)
    requires var tagInfo := GetArrayRange(data, pos, Parse.TagLength);
      |tagInfo| != Parse.TagLength || Parse.Stops(stopWhen, HeaderOf(tagInfo, implicitVR, littleEndian).group)
    ensures ReadLoop(store, tables, data, pos, implicitVR, littleEndian, stopWhen, ds) == Success((ds, pos))
  {
  }

  /** The loop at a header the stop predicate does not hold for: the rest of the turn, then
      the loop from where it ended. */
  lemma LoopGoesOn(store: Parse.Store, tables: Tables, data: seq<byte>, pos: nat, implicitVR: bool, littleEndian: bool, stopWhen: Parse.StopWhen, ds: Dataset)
    requires |GetArrayRange(data, pos, Parse.TagLength)| == Parse.TagLength
    requires !Parse.Stops(stopWhen, HeaderOf(GetArrayRange(data, pos, Parse.TagLength), implicitVR, littleEndian).group)
    ensures var added := Advance(store, tables, data, pos, HeaderOf(GetArrayRange(data, pos, Parse.TagLength), implicitVR, littleEndian), implicitVR, littleEndian, ds);
      var loop := ReadLoop(store, tables, data, pos, implicitVR, littleEndian, stopWhen, ds);
      pos < |data| &&
      (added.Failure? ==> loop == Failure(added.error)) &&
      (added.Success? ==>
        added.value.1 > pos && loop == ReadLoop(store, tables, data, added.value.1, implicitVR, littleEndian, stopWhen, added.value.0))
  {
  }

  /** How one turn of a loop ends. */
  datatype Turn = Break | Throw(error: Error) | Next(dataset: Dataset, position: nat)

  /** What a turn at `pos` promises about the loop it belongs to. */
  predicate TurnAgrees(store: Parse.Store, tables: Tables, data: seq<byte>, pos: nat, implicitVR: bool, littleEndian: bool, stopWhen: Parse.StopWhen, dataset: Dataset, t: Turn)
  {
    var loop := ReadLoop(store, tables, data, pos, implicitVR, littleEndian, stopWhen, dataset);
    (t.Break? ==> loop == Success((dataset, pos))) &&
    (t.Throw? ==> loop == Failure(t.error)) &&
    (t.Next? ==>
      pos < |data| && t.position > pos &&
      loop == ReadLoop(store, tables, data, t.position, implicitVR, littleEndian, stopWhen, t.dataset))
  }

  /** The implicit VR loop after the header, as the source runs it: the cursor moves past
      the header, and past the value when its length is defined and not zero, in which case
      the record is stored. */
  method ImplicitValue(store: Parse.Store, tables: Tables, data: seq<byte>, pos: nat, h: Parse.Header, littleEndian: bool, dataset: Dataset)
    returns (r: Result<(Dataset, nat), Error>)
    requires h.size == Parse.TagLength
    ensures r == Advance(store, tables, data, pos, h, true, littleEndian, dataset)
  {
    var cursorPositionChange := pos + Parse.TagLength;
    if h.length != Parse.UndefinedLength {
      if h.length > 0 {
        var value := GetArrayRange(data, cursorPositionChange, h.length);
        cursorPositionChange := cursorPositionChange + h.length;
        var stored := store(h, value, dataset);
        if stored.Failure? {
          AdvanceThrows(store, tables, data, pos, h, true, littleEndian, dataset, stored.error);
          return Failure(stored.error);
        }
        AdvanceStores(store, tables, data, pos, h, true, littleEndian, dataset, h, stored.value);
        return Success((stored.value, cursorPositionChange));
      }
    }
    AdvanceSkips(store, tables, data, pos, h, true, littleEndian, dataset, h);
    return Success((dataset, cursorPositionChange));
  }

  /** The explicit VR loop after the header, as the source runs it: the `trueLength` of a VR
      with a 32-bit length is read after the header, then the value is skipped and stored as
      in the implicit loop. No record is read again with the implicit layout. */
  method ExplicitValue(store: Parse.Store, tables: Tables, data: seq<byte>, pos: nat, h: Parse.Header, littleEndian: bool, dataset: Dataset)
    returns (r: Result<(Dataset, nat), Error>)
    requires h.size == Parse.TagLength
    ensures r == Advance(store, tables, data, pos, h, false, littleEndian, dataset)
  {
    var cursorPositionChange := pos + Parse.TagLength;
    var trueLength := h.length;
    var headerSize := Parse.TagLength;
    if h.vr in tables.extraLengthVRs {
      var extraLength := 4;
      var extraLengthInfo := GetArrayRange(data, cursorPositionChange, extraLength);
      if |extraLengthInfo| < extraLength {
        AdvanceThrows(store, tables, data, pos, h, false, littleEndian, dataset, TruncatedUnpack);
        return Failure(TruncatedUnpack);
      }
      trueLength := Unsigned(extraLengthInfo[0..4], littleEndian);
      cursorPositionChange := cursorPositionChange + extraLength;
      headerSize := headerSize + extraLength;
    }
    var h' := h.(length := trueLength, size := headerSize);
    assert TrueLength(tables, data, pos, h, false, littleEndian) == Success(h');
    if trueLength != Parse.UndefinedLength {
      if trueLength > 0 {
        var value := GetArrayRange(data, cursorPositionChange, trueLength);
        cursorPositionChange := cursorPositionChange + trueLength;
        var stored := store(h', value, dataset);
        if stored.Failure? {
          AdvanceThrows(store, tables, data, pos, h, false, littleEndian, dataset, stored.error);
          return Failure(stored.error);
        }
        AdvanceStores(store, tables, data, pos, h, false, littleEndian, dataset, h', stored.value);
        return Success((stored.value, cursorPositionChange));
      }
    }
    AdvanceSkips(store, tables, data, pos, h, false, littleEndian, dataset, h');
    return Success((dataset, cursorPositionChange));
  }

  /** One turn of either loop, as the source runs it: the loop is left when fewer than eight
      bytes remain or the stop predicate holds for the header; otherwise the rest of the turn
      is the implicit or the explicit one. */
  method ReadTurn(store: Parse.Store, tables: Tables, data: seq<byte>, pos: nat, implicitVR: bool, littleEndian: bool, stopWhen: Parse.StopWhen, dataset: Dataset)
    returns (t: Turn)
    ensures TurnAgrees(store, tables, data, pos, implicitVR, littleEndian, stopWhen, dataset, t)
  {
    var tagInfo := GetArrayRange(data, pos, Parse.TagLength);
    if |tagInfo| != Parse.TagLength {
      LoopBreaks(store, tables, data, pos, implicitVR, littleEndian, stopWhen, dataset);
      return Break;
    }
    var h := HeaderOf(tagInfo, implicitVR, littleEndian);
    if Parse.Stops(stopWhen, h.group) {
      LoopBreaks(store, tables, data, pos, implicitVR, littleEndian, stopWhen, dataset);
      return Break;
    }
    LoopGoesOn(store, tables, data, pos, implicitVR, littleEndian, stopWhen, dataset);
    var added;
    if implicitVR {
      added := ImplicitValue(store, tables, data, pos, h, littleEndian, dataset);
    } else {
      added := ExplicitValue(store, tables, data, pos, h, littleEndian, dataset);
    }
    if added.Failure? {
      return Throw(added.error);
    }
    return Next(added.value.0, added.value.1);
  }

  /** Reading on from `pos` with the records `ds` ends as reading the region from its start
      does. */
  predicate Resumes(store: Parse.Store, tables: Tables, data: seq<byte>, implicitVR: bool, littleEndian: bool, stopWhen: Parse.StopWhen, pos: nat, ds: Dataset)
  {
    ReadLoop(store, tables, data, pos, implicitVR, littleEndian, stopWhen, ds)
      == ReadLoop(store, tables, data, 0, implicitVR, littleEndian, stopWhen, [])
  }

  /** The reading loop of this revision's `readDataset`, as the source runs it: a cursor
      moved through the region and each stored record assigned into the dataset. The source
      writes the loop twice, once per VR encoding; here the turn takes the encoding. */
  method ReadElements(tables: Tables, data: seq<byte>, implicitVR: bool, littleEndian: bool, stopWhen: Parse.StopWhen)
    returns (r: Result<(Dataset, nat), Error>)
    ensures r == ReadLoop(Keying(tables, littleEndian), tables, data, 0, implicitVR, littleEndian, stopWhen, [])
  {
    var store := Keying(tables, littleEndian);
    var dataset: Dataset := [];
    var cursorPositionChange: nat := 0;
    while true
      invariant Resumes(store, tables, data, implicitVR, littleEndian, stopWhen, cursorPositionChange, dataset)
      decreases |data| - cursorPositionChange
    {
      var turn := ReadTurn(store, tables, data, cursorPositionChange, implicitVR, littleEndian, stopWhen, dataset);
      match turn
      case Break =>
        break;
      case Throw(e) =>
        return Failure(e);
      case Next(ds', next) =>
        dataset, cursorPositionChange := ds', next;
    }
    r := Success((dataset, cursorPositionChange));
    Parse.SameLoopResult(r, ReadLoop(store, tables, data, 0, implicitVR, littleEndian, stopWhen, []));
  }

  // ----- regions of the file -----

  /** What this revision's `readDataset(bytes, cursor, isImplicitVRAssumed, isLittleEndian,
      stopWhen)` computes: the loop over the bytes after the cursor, with the VR encoding
      decided once before it. */
  function ReadDatasetResult(tables: Tables, bytes: seq<byte>, cursor: nat, assumed: bool, littleEndian: bool, stopWhen: Parse.StopWhen)
    : (r: Result<Parse.DatasetRead, Error>)
  {
    var data := SplitArray(bytes, cursor).1;
    var implicitVR := IsImplicitVr(bytes, cursor, assumed, true);
    var loop := ReadLoop(Keying(tables, littleEndian), tables, data, 0, implicitVR, littleEndian, stopWhen, []);
    if loop.Failure? then Failure(loop.error) else Success(Parse.DatasetRead(loop.value.0, cursor + loop.value.1))
  }

  /** `readDataset` of this revision, as the source runs it. */
  method ReadDataset(tables: Tables, bytes: seq<byte>, cursor: nat, assumed: bool, littleEndian: bool, stopWhen: Parse.StopWhen)
    returns (r: Result<Parse.DatasetRead, Error>)
    ensures r == ReadDatasetResult(tables, bytes, cursor, assumed, littleEndian, stopWhen)
  {
    var data := SplitArray(bytes, cursor).1;
    var implicitVR := IsImplicitVr(bytes, cursor, assumed, true);
    var read := ReadElements(tables, data, implicitVR, littleEndian, stopWhen);
    ReadDatasetOfLoop(tables, bytes, cursor, assumed, littleEndian, stopWhen, read);
    if read.Failure? {
      return Failure(read.error);
    }
    r := Success(Parse.DatasetRead(read.value.0, cursor + read.value.1));
  }

  /** `ReadDatasetResult` in terms of the loop's outcome. */
  lemma ReadDatasetOfLoop(tables: Tables, bytes: seq<byte>, cursor: nat, assumed: bool, littleEndian: bool, stopWhen: Parse.StopWhen,
                          loop: Result<(Dataset, nat), Error>)
    requires loop == ReadLoop(Keying(tables, littleEndian), tables, SplitArray(bytes, cursor).1, 0,
      IsImplicitVr(bytes, cursor, assumed, true), littleEndian, stopWhen, [])
    ensures ReadDatasetResult(tables, bytes, cursor, assumed, littleEndian, stopWhen)
      == if loop.Failure? then Failure(loop.error) else Success(Parse.DatasetRead(loop.value.0, cursor + loop.value.1))
  {
  }

  /** A dataset this revision reads has distinct keys; each key is the eight hexadecimal
      digits of its tag's group and element, which read back as those numbers; no tag in it
      is one the stop predicate holds for; and the cursor never moves back. */
  lemma ReadDatasetKeys(tables: Tables, bytes: seq<byte>, cursor: nat, assumed: bool, littleEndian: bool, stopWhen: Parse.StopWhen)
    requires ReadDatasetResult(tables, bytes, cursor, assumed, littleEndian, stopWhen).Success?
    ensures var read := ReadDatasetResult(tables, bytes, cursor, assumed, littleEndian, stopWhen).value;
      DistinctKeys(read.dataset) && AllHexKeyed(read.dataset, stopWhen) && read.newCursorPosition >= cursor &&
      forall i :: 0 <= i < |read.dataset| ==>
        ParseNat(read.dataset[i].key[..4], 16) == read.dataset[i].tag.representations.group &&
        ParseNat(read.dataset[i].key[4..], 16) == read.dataset[i].tag.representations.element
  {
    var data := SplitArray(bytes, cursor).1;
    var implicitVR := IsImplicitVr(bytes, cursor, assumed, true);
    KeyingHexKeyed(tables, littleEndian, stopWhen);
    ReadLoopKeys(Keying(tables, littleEndian), tables, data, 0, implicitVR, littleEndian, stopWhen, []);
    var ds := ReadDatasetResult(tables, bytes, cursor, assumed, littleEndian, stopWhen).value.dataset;
    forall i | 0 <= i < |ds|
      ensures ParseNat(ds[i].key[..4], 16) == ds[i].tag.representations.group
      ensures ParseNat(ds[i].key[4..], 16) == ds[i].tag.representations.element
    {
      assert HexKeyed(ds[i], stopWhen);
      HexKeyRoundTrip(ds[i].tag.representations.group, ds[i].tag.representations.element);
    }
  }

  /** `readFileMetaInfo(bytes, cursor)` of this revision: explicit VR assumed, little endian,
      up to the first record outside group 0002. */
  function ReadFileMetaInfo(tables: Tables, bytes: seq<byte>, cursor: nat): (r: Result<Parse.DatasetRead, Error>)
    ensures r.Success? ==>
      DistinctKeys(r.value.dataset) && AllHexKeyed(r.value.dataset, Parse.WhenNotGroup0002) &&
      r.value.newCursorPosition >= cursor
  {
    var r := ReadDatasetResult(tables, bytes, cursor, false, true, Parse.WhenNotGroup0002);
    if r.Success? then
      ReadDatasetKeys(tables, bytes, cursor, false, true, Parse.WhenNotGroup0002);
      r
    else r
  }

  /** `readCommandSetElements(bytes, cursor)` of this revision: the same, up to the first
      record outside group 0000. */
  function ReadCommandSetElements(tables: Tables, bytes: seq<byte>, cursor: nat): (r: Result<Parse.DatasetRead, Error>)
    ensures r.Success? ==>
      DistinctKeys(r.value.dataset) && AllHexKeyed(r.value.dataset, Parse.WhenNotGroup0000) &&
      r.value.newCursorPosition >= cursor
  {
    var r := ReadDatasetResult(tables, bytes, cursor, false, true, Parse.WhenNotGroup0000);
    if r.Success? then
      ReadDatasetKeys(tables, bytes, cursor, false, true, Parse.WhenNotGroup0000);
      r
    else r
  }

  /** Every tag of the command set is in group 0000 and is keyed "0000" followed by its
      element. */
  lemma CommandSetKeys(tables: Tables, bytes: seq<byte>, cursor: nat)
    requires ReadCommandSetElements(tables, bytes, cursor).Success?
    ensures var ds := ReadCommandSetElements(tables, bytes, cursor).value.dataset;
      forall i :: 0 <= i < |ds| ==>
        ds[i].tag.representations.group == 0 && ds[i].key == HexKey(0, ds[i].tag.representations.element)
  {
    ReadDatasetKeys(tables, bytes, cursor, false, true, Parse.WhenNotGroup0000);
    var ds := ReadCommandSetElements(tables, bytes, cursor).value.dataset;
    forall i | 0 <= i < |ds|
      ensures ds[i].tag.representations.group == 0 && ds[i].key == HexKey(0, ds[i].tag.representations.element)
    {
      assert HexKeyed(ds[i], Parse.WhenNotGroup0000);
    }
  }

  /** Group 0002, element 0010 is keyed "00020010". */
  lemma TransferSyntaxHexKey()
    ensures HexKey(2, 0x10) == Parse.TransferSyntaxKey
  {
    assert FixedDigits(2, 16, 4) == "0002" by {
      assert FixedDigits(0, 16, 3) == "000";
    }
    assert FixedDigits(0x10, 16, 4) == "0010" by {
      assert FixedDigits(1, 16, 3) == "001" by {
        assert FixedDigits(0, 16, 2) == "00";
      }
    }
  }

  /** Every tag of the file meta information is in group 0002, and `_.get(fileMetaInfo,
      '00020010')` finds the transfer syntax tag when it was read, unlike in the later
      revision, whose keys are keywords. */
  lemma FileMetaInfoKeys(tables: Tables, bytes: seq<byte>, cursor: nat, i: nat)
    requires ReadFileMetaInfo(tables, bytes, cursor).Success?
    requires i < |ReadFileMetaInfo(tables, bytes, cursor).value.dataset|
    ensures var ds := ReadFileMetaInfo(tables, bytes, cursor).value.dataset;
      ds[i].tag.representations.group == 2 &&
      (ds[i].tag.representations.element == 0x10 ==> Get(ds, Parse.TransferSyntaxKey) == Some(ds[i].tag))
  {
    ReadDatasetKeys(tables, bytes, cursor, false, true, Parse.WhenNotGroup0002);
    var ds := ReadFileMetaInfo(tables, bytes, cursor).value.dataset;
    assert HexKeyed(ds[i], Parse.WhenNotGroup0002);
    if ds[i].tag.representations.element == 0x10 {
      TransferSyntaxHexKey();
      FoundByHexKey(ds, Parse.WhenNotGroup0002, i);
    }
  }

  // ----- pixel data size and type -----

  /** `bytesNeeded` of `getExpectedLength`: one bit per sample rounded up to whole bytes, or
      `floor(bitsAllocated / 8)` bytes per sample. */
  function BytesNeeded(baseLength: nat, bitsAllocated: nat): (n: nat)
    ensures bitsAllocated == 1 ==> 8 * n >= baseLength && 8 * n < baseLength + 8
    ensures bitsAllocated % 8 == 0 ==> 8 * n == baseLength * bitsAllocated
    ensures bitsAllocated != 1 ==> n == baseLength * (bitsAllocated / 8) && 8 * n <= baseLength * bitsAllocated
  {
    if bitsAllocated == 1 then baseLength / 8 + (if baseLength % 8 == 0 then 0 else 1)
    else
      assert bitsAllocated % 8 == 0 ==> 8 * (baseLength * (bitsAllocated / 8)) == baseLength * bitsAllocated by {
        if bitsAllocated % 8 == 0 {
          assert bitsAllocated == 8 * (bitsAllocated / 8);
        }
      }
      assert 8 * (bitsAllocated / 8) <= bitsAllocated;
      assert 8 * (baseLength * (bitsAllocated / 8)) <= baseLength * bitsAllocated by {
        MulMono(baseLength, 8 * (bitsAllocated / 8), bitsAllocated);
      }
      baseLength * (bitsAllocated / 8)
  }

  /** The photometric interpretation whose size `getExpectedLength` takes as two thirds. */
  const YbrFull422 := "YBR_FULL_422"

  /** `getExpectedLength(rows, columns, samplesPerPixel, bitsAllocated,
      photometricInterpretation, unit)`: the number of samples when the unit is "pixels",
      otherwise the number of bytes they take, of which YBR_FULL_422 keeps two thirds rounded
      down to an even number. */
  function GetExpectedLength(rows: nat, columns: nat, samplesPerPixel: nat, bitsAllocated: nat, photometricInterpretation: string, unit: string)
    : (r: nat)
    ensures unit == "pixels" ==> r == rows * columns * samplesPerPixel
    ensures unit != "pixels" && photometricInterpretation != YbrFull422 ==>
      r == BytesNeeded(rows * columns * samplesPerPixel, bitsAllocated)
    ensures unit != "pixels" && photometricInterpretation == YbrFull422 ==>
      var bytes := BytesNeeded(rows * columns * samplesPerPixel, bitsAllocated);
      r % 2 == 0 && 3 * (r / 2) <= bytes < 3 * (r / 2) + 3
  {
    var baseLength := rows * columns * samplesPerPixel;
    if unit == "pixels" then baseLength
    else
      var bytesNeeded := BytesNeeded(baseLength, bitsAllocated);
      if photometricInterpretation == YbrFull422 then (bytesNeeded / 3) * 2 else bytesNeeded
  }

  /** With whole bytes per sample, a pixel buffer of the expected size has one sample per
      expected pixel, which is how many colour tokens the pixel reader gives for it. */
  lemma ExpectedLengthTokens(rows: nat, columns: nat, samplesPerPixel: nat, photometricInterpretation: string,
                             raw: seq<byte>, d: PixelData.Descriptor)
    requires d.center != 0 && d.bitsAllocated > 0 && d.bitsAllocated % 8 == 0
    requires photometricInterpretation != YbrFull422
    requires |raw| == GetExpectedLength(rows, columns, samplesPerPixel, d.bitsAllocated, photometricInterpretation, "bytes")
    ensures |PixelData.PixelTokens(raw, d)| == GetExpectedLength(rows, columns, samplesPerPixel, d.bitsAllocated, photometricInterpretation, "pixels")
  {
    var base := rows * columns * samplesPerPixel;
    var k := PixelData.BytesPerSample(d.bitsAllocated);
    assert k == d.bitsAllocated / 8;
    assert |raw| == base * k;
    PixelData.PixelTokenCount(raw, d);
    DivUnique(base * k + k - 1, k, base, k - 1);
  }

  /** The typed arrays `getPixelTypeConstructor` can give. */
  datatype PixelType = Uint8Array | Uint16Array | Int8Array | Int16Array

  /** `representations[pixelRepresentation]` as the template literal prints it: a missing
      entry prints as "undefined". */
  function RepresentationName(pixelRepresentation: int): string
  {
    if pixelRepresentation == 0 then "uint" else if pixelRepresentation == 1 then "int" else "undefined"
  }

  /** The `typeName` of `getPixelTypeConstructor`. */
  function TypeName(bitsAllocated: int, pixelRepresentation: int): string
  {
    if bitsAllocated == 1 then "uint8" else RepresentationName(pixelRepresentation) + IntToString(bitsAllocated, 10)
  }

  /** `getPixelTypeConstructor(bitsAllocated, pixelRepresentation)`: the `types` entry under
      the type name, if any. The byte order is only logged. */
  function GetPixelTypeConstructor(bitsAllocated: int, pixelRepresentation: int): (r: Option<PixelType>)
    ensures r == Some(Uint8Array) <==> bitsAllocated == 1 || (bitsAllocated == 8 && pixelRepresentation == 0)
    ensures r == Some(Uint16Array) <==> bitsAllocated == 16 && pixelRepresentation == 0
    ensures r == Some(Int8Array) <==> bitsAllocated == 8 && pixelRepresentation == 1
    ensures r == Some(Int16Array) <==> bitsAllocated == 16 && pixelRepresentation == 1
    ensures r.None? <==> bitsAllocated != 1 && (bitsAllocated !in {8, 16} || pixelRepresentation !in {0, 1})
  {
    var typeName := TypeName(bitsAllocated, pixelRepresentation);
    TypeNames(bitsAllocated, pixelRepresentation);
    if typeName == "uint8" then Some(Uint8Array)
    else if typeName == "uint16" then Some(Uint16Array)
    else if typeName == "int8" then Some(Int8Array)
    else if typeName == "int16" then Some(Int16Array)
    else None
  }

  /** Which bit counts and representations name each typed array. */
  lemma TypeNames(bitsAllocated: int, pixelRepresentation: int)
    ensures var name := TypeName(bitsAllocated, pixelRepresentation);
      (name == "uint8" <==> bitsAllocated == 1 || (bitsAllocated == 8 && pixelRepresentation == 0)) &&
      (name == "uint16" <==> bitsAllocated == 16 && pixelRepresentation == 0) &&
      (name == "int8" <==> bitsAllocated == 8 && pixelRepresentation == 1) &&
      (name == "int16" <==> bitsAllocated == 16 && pixelRepresentation == 1)
  {
    if bitsAllocated != 1 {
      var digits := IntToString(bitsAllocated, 10);
      DecimalNames(bitsAllocated);
      var prefix := RepresentationName(pixelRepresentation);
      assert TypeName(bitsAllocated, pixelRepresentation) == prefix + digits;
      PrefixedName(prefix, digits, "uint", "8");
      PrefixedName(prefix, digits, "uint", "16");
      PrefixedName(prefix, digits, "int", "8");
      PrefixedName(prefix, digits, "int", "16");
    }
  }

  /** A name made of one of the three prefixes and some digits is `prefix + digits` only
      for that prefix and those digits. */
  lemma PrefixedName(prefix: string, digits: string, p: string, d: string)
    requires prefix in {"uint", "int", "undefined"} && p in {"uint", "int"}
    requires |digits| >= 1 && (digits[0] == '-' || IsLowerHexDigit(digits[0])) && |d| >= 1 && IsLowerHexDigit(d[0])
    ensures prefix + digits == p + d <==> prefix == p && digits == d
  {
    if prefix + digits == p + d {
      var s := p + d;
      assert s[0] == p[0] && s[1] == p[1];
      assert s[0] == prefix[0] && s[1] == prefix[1];
      assert digits == s[|p|..];
    }
  }

  /** The decimal text of a number is "8" or "16" only for that number. */
  lemma DecimalNames(n: int)
    ensures var s := IntToString(n, 10);
      |s| >= 1 && (s[0] == '-' || IsLowerHexDigit(s[0])) &&
      (s == "8" <==> n == 8) && (s == "16" <==> n == 16)
  {
    var s := IntToString(n, 10);
    assert NatToString(8, 10) == "8";
    assert NatToString(16, 10) == "16" by {
      assert NatToString(1, 10) == "1";
    }
    if n >= 0 {
      NatToStringInjective(n, 8, 10);
      NatToStringInjective(n, 16, 10);
    } else {
      assert s[0] == '-';
    }
  }
}
