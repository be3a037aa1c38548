/** The tag-length-value stream reader: the preamble, the per-record header, the reading
    loop over a region of the file, the transfer syntax decision and `parseFile`.

    A record header is eight bytes: group and element (16 bits each), then either a 32-bit
    length (implicit VR, section 7.1.3 of DICOM PS3.5) or two VR characters and a 16-bit length
    (explicit VR, section 7.1.2), where some VRs put a 32-bit length in the four bytes after
    the header. */
module Parse {
  import opened Wrappers
  import opened Seqs
  import opened Text
  import opened Bytes
  import opened Bufferpack
  import opened Utf8
  import opened Helpers
  import opened MultiString
  import opened Dicom
  import opened Converter
  import opened TagHelpers

  /** The magic text after the 128-byte preamble (section 7.1 of DICOM PS3.10). */
  const DicomMagicPrefix := "DICM"

  /** The length `parseInt('0xFFFFFFFF', 16)` that marks an undefined length. */
  const UndefinedLength := 0xFFFF_FFFF

  /** The bytes of a record header before any extra length. */
  const TagLength := 8

  // ----- preamble -----

  /** `readPreamble(bytes)`: the preamble and the cursor after "DICM", or an empty preamble
      and cursor 0 when the magic text is missing. */
  function ReadPreamble(bytes: seq<byte>): (r: (seq<byte>, nat))
    ensures r.1 == 132 <==> |bytes| >= 132 && ArrayToText(bytes[128..132]) == DicomMagicPrefix
    ensures r.1 == 132 ==> r.0 == bytes[..128]
    ensures r.1 != 132 ==> r == ([], 0)
  {
    var (header, _) := SplitArray(bytes, 132);
    var (preamble, magic) := SplitArray(header, 128);
    MagicSplit(bytes);
    if ArrayToText(magic) != DicomMagicPrefix then ([], 0) else (preamble, 132)
  }

  lemma MagicSplit(bytes: seq<byte>)
    ensures var (preamble, magic) := SplitArray(SplitArray(bytes, 132).0, 128);
      (|bytes| >= 132 ==> preamble == bytes[..128] && magic == bytes[128..132]) &&
      (|bytes| < 132 ==> ArrayToText(magic) != DicomMagicPrefix)
  {
    var header := SplitArray(bytes, 132).0;
    var magic := SplitArray(header, 128).1;
    if |bytes| >= 132 {
      assert header == bytes[..132];
      assert magic == bytes[128..132];
    } else {
      assert |magic| < 4;
      assert |ArrayToText(magic)| == |magic|;
    }
  }

  // ----- stop predicates -----

  /** The `stopWhen` argument: none, `notGroup0000` or `notGroup0002`. Both predicates look at
      the group only. */
  datatype StopWhen = Never | WhenNotGroup0000 | WhenNotGroup0002

  predicate Stops(stopWhen: StopWhen, group: nat)
  {
    match stopWhen
    case Never => false
    case WhenNotGroup0000 => NotGroup0000(group)
    case WhenNotGroup0002 => NotGroup0002(group)
  }

  // ----- implicit or explicit VR -----

  /** lodash `inRange(x, lo, hi)`: the end is excluded. */
  predicate InRange(x: int, lo: int, hi: int)
  {
    lo <= x < hi
  }

  /** The heuristic's test: the two bytes after group and element are not both in
      0x40..0x5A ('@' to 'Z'). */
  predicate LooksImplicit(rawVR: seq<byte>)
    requires |rawVR| >= 2
  {
    !(InRange(rawVR[0], 0x40, 0x5b) && InRange(rawVR[1], 0x40, 0x5b))
  }

  /** `isImplicitVr(bytes, cursor, isImplicitVRAssumed, isLittleEndian, isSequence, stopWhen)`.
      A sequence read with implicit VR assumed stays implicit; otherwise the bytes decide when
      there are six of them, and the assumption when there are not. The stop predicate is
      consulted but never changes the answer. */
  function IsImplicitVr(bytes: seq<byte>, cursor: nat, assumed: bool, littleEndian: bool, isSequence: bool, stopWhen: StopWhen)
    : (r: bool)
    ensures var data := GetArrayRange(bytes, cursor, 6);
      r == ((isSequence && assumed) ||
            (if |data| < 6 then assumed else !(InRange(bytes[cursor + 4], 0x40, 0x5b) && InRange(bytes[cursor + 5], 0x40, 0x5b))))
  {
    if isSequence && assumed then true
    else
      var data := GetArrayRange(bytes, cursor, 6);
      var (tagBytes, rawVR) := SplitArray(data, 4);
      if |rawVR| < 2 then assumed
      else
        var foundImplicit := LooksImplicit(rawVR);
        if foundImplicit != assumed then
          var group := Unsigned(tagBytes[0..2], littleEndian);
          if Stops(stopWhen, group) then foundImplicit
          else if foundImplicit && isSequence then true
          else foundImplicit
        else foundImplicit
  }

  // ----- one record header -----

  /** What `unpack` gives for a record: group, element, VR ("" for the `null` of implicit
      VR), value length and the number of header bytes. */
  datatype Header = Header(group: nat, element: nat, vr: string, length: nat, size: nat)

  /** `isUppercaseLetter`: 'A' <= c < 'Z', so 'Z' itself is not counted. */
  predicate IsUppercaseLetter(c: char)
  {
    InRange(c as int, 'A' as int, 'Z' as int)
  }

  /** The extra length pattern `<L` or `>L`. */
  lemma ExtraLengthUnpack(littleEndian: bool, b: seq<byte>)
    ensures |b| < 4 ==> Unpack([GetEndianCharacter(littleEndian)] + "L", b, 0).None?
    ensures |b| >= 4 ==> Unpack([GetEndianCharacter(littleEndian)] + "L", b, 0) == Some([UInt(Unsigned(b[0..4], littleEndian))])
  {
    var p := [GetEndianCharacter(littleEndian)] + "L";
    var it := Item(1, UnsignedCode(4));
    assert p[1..] == "L";
    LastItem('L', UnsignedCode(4));
    assert ParseFormat(p) == Some(Format(littleEndian, [it]));
    UnpackItemsDefined([it], littleEndian, b, 0);
    assert ItemsLength([it]) == 4;
    if |b| >= 4 {
      UnpackLast(it, littleEndian, b, 0);
      UnitFields(UnsignedCode(4), littleEndian, b[0..4]);
    }
  }

  /** The fields of an eight-byte header, one by one. */
  lemma HeaderFields(littleEndian: bool, implicitVR: bool, tag: seq<byte>)
    requires |tag| >= 8
    ensures var o := Unpack(GetEndianPattern(littleEndian, implicitVR), tag, 0);
      o.Some? && |o.value| == (if implicitVR then 3 else 4) &&
      o.value[0] == UInt(Unsigned(tag[0..2], littleEndian)) &&
      o.value[1] == UInt(Unsigned(tag[2..4], littleEndian)) &&
      (implicitVR ==> o.value[2] == UInt(Unsigned(tag[4..8], littleEndian))) &&
      (!implicitVR ==> o.value[2] == Str(ArrayToText(tag[4..6])) && o.value[3] == UInt(Unsigned(tag[6..8], littleEndian)))
  {
    UnpackHeader(littleEndian, implicitVR, tag);
  }

  /** The VR characters of an explicit header. */
  function RawVR(tagData: seq<byte>): string
    requires |tagData| >= 8
  {
    ArrayToText(tagData[4..6])
  }

  /** Both VR characters pass `isUppercaseLetter`. */
  predicate HasVR(tagData: seq<byte>)
    requires |tagData| >= 8
  {
    IsUppercaseLetter(RawVR(tagData)[0]) && IsUppercaseLetter(RawVR(tagData)[1])
  }

  /** A header read with the implicit layout: group, element, a 32-bit length and no VR. */
  function ImplicitLayout(tagData: seq<byte>, littleEndian: bool): Header
    requires |tagData| >= 8
  {
    Header(Unsigned(tagData[0..2], littleEndian), Unsigned(tagData[2..4], littleEndian), "",
      Unsigned(tagData[4..8], littleEndian), 8)
  }

  /** `unpack(data, tagData, elementPattern, isImplicitVR, isLittleEndian, cursor)`, with the
      element pattern the one `getEndianPattern(isLittleEndian, isImplicitVR)` gives. It fails
      where the source destructures the `undefined` of a short unpack. */
  function UnpackElement(tables: Tables, data: seq<byte>, tagData: seq<byte>, implicitVR: bool, littleEndian: bool, cursor: nat)
    : (r: Result<Header, Error>)
    ensures |tagData| < 8 ==> r.Failure?
    ensures r.Success? ==> r.value.size in {8, 12}
    ensures |tagData| >= 8 && (implicitVR || !HasVR(tagData)) ==> r == Success(ImplicitLayout(tagData, littleEndian))
    ensures |tagData| >= 8 && !implicitVR && HasVR(tagData) && RawVR(tagData) !in tables.extraLengthVRs ==>
      r == Success(Header(Unsigned(tagData[0..2], littleEndian), Unsigned(tagData[2..4], littleEndian),
        RawVR(tagData), Unsigned(tagData[6..8], littleEndian), 8))
    ensures |tagData| >= 8 && !implicitVR && HasVR(tagData) && RawVR(tagData) in tables.extraLengthVRs ==>
      var extra := GetArrayRange(data, cursor + 8, 4);
      (r.Failure? <==> |extra| < 4) &&
      (r.Success? ==> r.value == Header(Unsigned(tagData[0..2], littleEndian), Unsigned(tagData[2..4], littleEndian),
        RawVR(tagData), Unsigned(extra[0..4], littleEndian), 12))
  {
    var defaultTagLength := 8;
    if |tagData| < 8 then
      UnpackHeader(littleEndian, implicitVR, tagData);
      assert Unpack(GetEndianPattern(littleEndian, implicitVR), tagData, 0).None?;
      Failure(TruncatedUnpack)
    else
      HeaderFields(littleEndian, implicitVR, tagData);
      var fields := Unpack(GetEndianPattern(littleEndian, implicitVR), tagData, 0).value;
      if implicitVR then
        Success(Header(fields[0].u, fields[1].u, "", fields[2].u, defaultTagLength))
      else
        var vr := fields[2].s;
        if !(IsUppercaseLetter(vr[0]) && IsUppercaseLetter(vr[1])) then
          HeaderFields(littleEndian, true, tagData);
          var implicitFields := Unpack(GetEndianPattern(littleEndian, true), tagData, 0).value;
          Success(Header(implicitFields[0].u, implicitFields[1].u, "", implicitFields[2].u, defaultTagLength))
        else if vr in tables.extraLengthVRs then
          var extraLength := 4;
          var extraLengthInfo := GetArrayRange(data, cursor + defaultTagLength, extraLength);
          ExtraLengthUnpack(littleEndian, extraLengthInfo);
          match Unpack([GetEndianCharacter(littleEndian)] + "L", extraLengthInfo, 0)
          case None => Failure(TruncatedUnpack)
          case Some(trueLength) =>
            Success(Header(fields[0].u, fields[1].u, vr, trueLength[0].u, defaultTagLength + extraLength))
        else
          Success(Header(fields[0].u, fields[1].u, vr, fields[3].u, defaultTagLength))
  }

  /** A VR with a 'Z' (or any byte outside 'A'..'Y') does not count as a VR: the record is
      read again with the implicit layout. */
  lemma ZIsNotUppercase(tables: Tables, data: seq<byte>, tagData: seq<byte>, littleEndian: bool, cursor: nat)
    requires |tagData| >= 8 && tagData[4] == 'Z' as int
    ensures UnpackElement(tables, data, tagData, false, littleEndian, cursor)
         == UnpackElement(tables, data, tagData, true, littleEndian, cursor)
  {
    assert ArrayToText(tagData[4..6])[0] == 'Z';
  }

  // ----- the reading loop -----

  /** Whether a record is stored: a defined, non-zero length and a VR other than "NONE". */
  predicate Emits(h: Header)
  {
    h.length != UndefinedLength && h.length > 0 && h.vr != "NONE"
  }

  /** A step that stores a record: given its header and its value bytes, the dataset with
      the record assigned, or the exception that escaped. The loop below is written over
      such a step; `readDataset` uses `Storing`. */
  type Store = (Header, seq<byte>, Dataset) -> Result<Dataset, Error>

  /** What storing a record does when it succeeds: the dataset grows by one record at the
      end, under a key not used before that is the keyword of the tag followed by '-' and a
      number, and the tag keeps the bytes, the length, the group and the element it was read
      with. */
  predicate StoredFresh(h: Header, value: seq<byte>, ds: Dataset, r: Result<Dataset, Error>)
  {
    r.Success? ==>
      |r.value| == |ds| + 1 && r.value[..|ds|] == ds && r.value[|ds|].key !in Keys(ds) &&
      IsCandidate(r.value[|ds|].tag.keyword, r.value[|ds|].key) &&
      r.value[|ds|].tag.rawValue == value && r.value[|ds|].tag.length == h.length &&
      r.value[|ds|].tag.representations.group == h.group && r.value[|ds|].tag.representations.element == h.element
  }

  /** Every record the step stores is stored fresh. */
  ghost predicate StoresFresh(store: Store)
  {
    forall h: Header, value: seq<byte>, ds: Dataset :: StoredFresh(h, value, ds, store(h, value, ds))
  }

  /** A stored record: the value converted with the wire VR (or, without one, the VR the
      dictionary gives), the tag enriched, and the tag assigned under a `getSafeKey` key, which
      is never one already in the dataset. */
  function StoreElement(tables: Tables, value: seq<byte>, h: Header, littleEndian: bool, ds: Dataset)
    : (r: Result<Dataset, Error>)
    ensures StoredFresh(h, value, ds, r)
  {
    match GetTagInfo(tables, value, h.length, h.group, h.element, h.vr)
    case Failure(e) => Failure(e)
    case Success(tagInfo) =>
      var values := TagValues(h.vr, h.length, value,
        ConvertValue(if h.vr != "" then h.vr else tagInfo.vr, tagInfo.rawValue, littleEndian));
      match CreateTag(tables, h.group, h.element, values)
      case Failure(e) => Failure(e)
      case Success(tag) =>
        var key := Candidate(tag.keyword, SafeKeyIndex(Keys(ds), tag.keyword, 1));
        SafeKeyFresh(Keys(ds), tag.keyword);
        var ds' := Put(ds, key, tag);
        assert ds'[..|ds|] == ds;
        Success(ds')
  }

  /** The storing step of `readDataset`. */
  function Storing(tables: Tables, littleEndian: bool): Store
  {
    (h: Header, value: seq<byte>, ds: Dataset) => StoreElement(tables, value, h, littleEndian, ds)
  }

  /** The storing step of `readDataset` stores every record fresh. */
  lemma StoringIsFresh(tables: Tables, littleEndian: bool)
    ensures StoresFresh(Storing(tables, littleEndian))
  {
    forall h: Header, value: seq<byte>, ds: Dataset
      ensures StoredFresh(h, value, ds, Storing(tables, littleEndian)(h, value, ds))
    {
      assert Storing(tables, littleEndian)(h, value, ds) == StoreElement(tables, value, h, littleEndian, ds);
    }
  }

  /** The body of the loop after the header: skips the value, and stores the record when its
      length is defined and not zero and its VR is not "NONE". A value of undefined length (a
      sequence or encapsulated data) is only logged. */
  function AddElement(store: Store, data: seq<byte>, valueStart: nat, h: Header, ds: Dataset)
    : (r: Result<(Dataset, nat), Error>)
    ensures r.Failure? ==> Emits(h)
    ensures r.Success? ==>
      r.value.1 == valueStart + (if h.length != UndefinedLength && h.length > 0 then h.length else 0)
    ensures r.Success? && !Emits(h) ==> r.value.0 == ds
    ensures Emits(h) ==>
      var stored := store(h, GetArrayRange(data, valueStart, h.length), ds);
      (r.Success? <==> stored.Success?) && (r.Success? ==> r.value.0 == stored.value)
  {
    if h.length != UndefinedLength then
      if h.length > 0 then
        var value := GetArrayRange(data, valueStart, h.length);
        var next := valueStart + h.length;
        if h.vr != "NONE" then
          match store(h, value, ds)
          case Failure(e) => Failure(e)
          case Success(ds') => Success((ds', next))
        else Success((ds, next))
      else Success((ds, valueStart))
    else Success((ds, valueStart))
  }

  /** `AddElement`, case by case. */
  lemma AddElementCases(store: Store, data: seq<byte>, valueStart: nat, h: Header, ds: Dataset)
    ensures var r := AddElement(store, data, valueStart, h, ds);
      if Emits(h) then
        var stored := store(h, GetArrayRange(data, valueStart, h.length), ds);
        r == if stored.Failure? then Failure(stored.error) else Success((stored.value, valueStart + h.length))
      else
        r == Success((ds, valueStart + (if h.length != UndefinedLength && h.length > 0 then h.length else 0)))
  {
  }

  /** Storing a record as the source runs it: the VR resolved, the value converted, the tag
      enriched, and the tag assigned under the key the probing loop of `getSafeKey` finds. */
  method StoreRecord(tables: Tables, value: seq<byte>, h: Header, littleEndian: bool, dataset: Dataset)
    returns (r: Result<Dataset, Error>)
    ensures r == StoreElement(tables, value, h, littleEndian, dataset)
  {
    var tagInfo := GetTagInfo(tables, value, h.length, h.group, h.element, h.vr);
    if tagInfo.Failure? {
      return Failure(tagInfo.error);
    }
    var values := TagValues(h.vr, h.length, value,
      ConvertValue(if h.vr != "" then h.vr else tagInfo.value.vr, tagInfo.value.rawValue, littleEndian));
    var tag := CreateTag(tables, h.group, h.element, values);
    if tag.Failure? {
      return Failure(tag.error);
    }
    var key := GetSafeKey(Keys(dataset), tag.value.keyword);
    return Success(Put(dataset, key, tag.value));
  }

  /** The body of the loop after the header, as the source runs it: the cursor moved past
      the value, and a record stored when the value is one to keep. */
  method ReadElement(tables: Tables, data: seq<byte>, valueStart: nat, h: Header, littleEndian: bool, dataset: Dataset)
    returns (r: Result<(Dataset, nat), Error>)
    ensures r == AddElement(Storing(tables, littleEndian), data, valueStart, h, dataset)
  {
    AddElementCases(Storing(tables, littleEndian), data, valueStart, h, dataset);
    var cursorPositionChange := valueStart;
    if h.length != UndefinedLength {
      if h.length > 0 {
        var value := GetArrayRange(data, cursorPositionChange, h.length);
        cursorPositionChange := cursorPositionChange + h.length;
        if h.vr != "NONE" {
          var stored := StoreRecord(tables, value, h, littleEndian, dataset);
          assert stored == Storing(tables, littleEndian)(h, value, dataset);
          if stored.Failure? {
            return Failure(stored.error);
          }
          r := Success((stored.value, cursorPositionChange));
          SameLoopResult(r, AddElement(Storing(tables, littleEndian), data, valueStart, h, dataset));
          return;
        }
      }
    }
    return Success((dataset, cursorPositionChange));
  }

  /** Where the loop ends: fewer than eight bytes remain, or the stop predicate holds for the
      record there. */
  predicate StoppedAt(tables: Tables, data: seq<byte>, pos: nat, implicitVR: bool, littleEndian: bool, stopWhen: StopWhen)
  {
    var tagData := GetArrayRange(data, pos, TagLength);
    |tagData| != TagLength ||
    (UnpackElement(tables, data, tagData, implicitVR, littleEndian, pos).Success? &&
     Stops(stopWhen, UnpackElement(tables, data, tagData, implicitVR, littleEndian, pos).value.group))
  }

  /** The `while (true)` loop of `readDataset` from position `pos` of the region, with the
      records gathered so far. It gives the dataset and the position where reading stopped,
      which is never before `pos`. A turn of the loop is split in four: the test that a
      whole tag remains (here), the header (`ReadHeader`), the value (`ReadValue`) and the
      move to the next record (`ReadNext`). */
  function ReadLoop(tables: Tables, store: Store, data: seq<byte>, pos: nat, implicitVR: bool, littleEndian: bool, stopWhen: StopWhen, ds: Dataset)
    : (r: Result<(Dataset, nat), Error>)
    ensures r.Success? ==> r.value.1 >= pos
    decreases |data| - pos, 3
  {
    var tagData := GetArrayRange(data, pos, TagLength);
    if |tagData| != TagLength then Success((ds, pos))
    else ReadHeader(tables, store, data, pos, implicitVR, littleEndian, stopWhen, ds)
  }

  /** The header of the record at `pos`: unpacked, and the loop left when the stop
      predicate holds for its group. */
  function ReadHeader(tables: Tables, store: Store, data: seq<byte>, pos: nat, implicitVR: bool, littleEndian: bool, stopWhen: StopWhen, ds: Dataset)
    : (r: Result<(Dataset, nat), Error>)
    requires pos + TagLength <= |data|
    ensures r.Success? ==> r.value.1 >= pos
    decreases |data| - pos, 2
  {
    match UnpackElement(tables, data, GetArrayRange(data, pos, TagLength), implicitVR, littleEndian, pos)
    case Failure(e) => Failure(e)
    case Success(h) =>
      if Stops(stopWhen, h.group) then Success((ds, pos))
      else ReadValue(tables, store, data, pos, h, implicitVR, littleEndian, stopWhen, ds)
  }

  /** The value of the record whose header `h` was read at `pos`: skipped or stored. */
  function ReadValue(tables: Tables, store: Store, data: seq<byte>, pos: nat, h: Header, implicitVR: bool, littleEndian: bool, stopWhen: StopWhen, ds: Dataset)
    : (r: Result<(Dataset, nat), Error>)
    requires pos + TagLength <= |data| && h.size >= TagLength
    ensures r.Success? ==> r.value.1 >= pos + h.size
    decreases |data| - pos, 1
  {
    ReadNext(tables, store, data, pos, AddElement(store, data, pos + h.size, h, ds), implicitVR, littleEndian, stopWhen)
  }

  /** After the record at `pos`: the loop goes on from where the value ended, with the
      records as they now are, unless storing the value failed. */
  function ReadNext(tables: Tables, store: Store, data: seq<byte>, pos: nat, added: Result<(Dataset, nat), Error>,
                    implicitVR: bool, littleEndian: bool, stopWhen: StopWhen)
    : (r: Result<(Dataset, nat), Error>)
    requires pos + TagLength <= |data|
    requires added.Success? ==> added.value.1 >= pos + TagLength
    ensures r.Success? ==> added.Success? && r.value.1 >= added.value.1
    decreases |data| - pos, 0
  {
    match added
    case Failure(e) => Failure(e)
    case Success((ds', next)) => ReadLoop(tables, store, data, next, implicitVR, littleEndian, stopWhen, ds')
  }

  /** `ReadHeader` where the header cannot be unpacked. */
  lemma ReadHeaderFails(tables: Tables, store: Store, data: seq<byte>, pos: nat, implicitVR: bool, littleEndian: bool, stopWhen: StopWhen, ds: Dataset)
    requires pos + TagLength <= |data|
    requires UnpackElement(tables, data, GetArrayRange(data, pos, TagLength), implicitVR, littleEndian, pos).Failure?
    ensures ReadHeader(tables, store, data, pos, implicitVR, littleEndian, stopWhen, ds)
         == Failure(UnpackElement(tables, data, GetArrayRange(data, pos, TagLength), implicitVR, littleEndian, pos).error)
  {
  }

  /** `ReadHeader` at a header the stop predicate holds for. */
  lemma ReadHeaderStops(tables: Tables, store: Store, data: seq<byte>, pos: nat, implicitVR: bool, littleEndian: bool, stopWhen: StopWhen, ds: Dataset)
    requires pos + TagLength <= |data|
    requires UnpackElement(tables, data, GetArrayRange(data, pos, TagLength), implicitVR, littleEndian, pos).Success?
    requires Stops(stopWhen, UnpackElement(tables, data, GetArrayRange(data, pos, TagLength), implicitVR, littleEndian, pos).value.group)
    ensures ReadHeader(tables, store, data, pos, implicitVR, littleEndian, stopWhen, ds) == Success((ds, pos))
  {
  }

  /** `ReadHeader` at a header the stop predicate does not hold for: the value is read. */
  lemma ReadHeaderGoesOn(tables: Tables, store: Store, data: seq<byte>, pos: nat, implicitVR: bool, littleEndian: bool, stopWhen: StopWhen, ds: Dataset, h: Header)
    requires pos + TagLength <= |data|
    requires UnpackElement(tables, data, GetArrayRange(data, pos, TagLength), implicitVR, littleEndian, pos) == Success(h)
    requires !Stops(stopWhen, h.group)
    ensures h.size >= TagLength
    ensures ReadHeader(tables, store, data, pos, implicitVR, littleEndian, stopWhen, ds)
         == ReadValue(tables, store, data, pos, h, implicitVR, littleEndian, stopWhen, ds)
  {
  }

  /** `ReadValue`: the value is skipped or stored and the loop moves on. */
  lemma ReadValueMovesOn(tables: Tables, store: Store, data: seq<byte>, pos: nat, h: Header, implicitVR: bool, littleEndian: bool, stopWhen: StopWhen, ds: Dataset)
    requires pos + TagLength <= |data| && h.size >= TagLength
    ensures var added := AddElement(store, data, pos + h.size, h, ds);
      (added.Success? ==> added.value.1 >= pos + TagLength) &&
      ReadValue(tables, store, data, pos, h, implicitVR, littleEndian, stopWhen, ds)
        == ReadNext(tables, store, data, pos, added, implicitVR, littleEndian, stopWhen)
  {
  }

  /** `ReadNext` where the value could not be stored. */
  lemma ReadNextFails(tables: Tables, store: Store, data: seq<byte>, pos: nat, added: Result<(Dataset, nat), Error>,
                      implicitVR: bool, littleEndian: bool, stopWhen: StopWhen)
    requires pos + TagLength <= |data|
    requires added.Failure?
    ensures ReadNext(tables, store, data, pos, added, implicitVR, littleEndian, stopWhen) == Failure(added.error)
  {
  }

  /** `ReadNext` where the value was skipped or stored: the loop goes on after it. */
  lemma ReadNextGoesOn(tables: Tables, store: Store, data: seq<byte>, pos: nat, added: Result<(Dataset, nat), Error>,
                       implicitVR: bool, littleEndian: bool, stopWhen: StopWhen)
    requires pos + TagLength <= |data|
    requires added.Success? && added.value.1 >= pos + TagLength
    ensures ReadNext(tables, store, data, pos, added, implicitVR, littleEndian, stopWhen)
         == ReadLoop(tables, store, data, added.value.1, implicitVR, littleEndian, stopWhen, added.value.0)
  {
  }

  /** Reading ends where fewer than eight bytes remain or at a record the stop predicate
      holds for. */
  lemma {:induction false} ReadLoopStops(tables: Tables, store: Store, data: seq<byte>, pos: nat, implicitVR: bool, littleEndian: bool, stopWhen: StopWhen, ds: Dataset)
    requires ReadLoop(tables, store, data, pos, implicitVR, littleEndian, stopWhen, ds).Success?
    ensures StoppedAt(tables, data, ReadLoop(tables, store, data, pos, implicitVR, littleEndian, stopWhen, ds).value.1, implicitVR, littleEndian, stopWhen)
    decreases |data| - pos
  {
    var tagData := GetArrayRange(data, pos, TagLength);
    if |tagData| != TagLength {
      ReadLoopEnds(tables, store, data, pos, implicitVR, littleEndian, stopWhen, ds);
    } else {
      var unpacked := UnpackElement(tables, data, tagData, implicitVR, littleEndian, pos);
      if unpacked.Failure? {
        TurnHeaderFails(tables, store, data, pos, implicitVR, littleEndian, stopWhen, ds);
        assert false;
      } else if Stops(stopWhen, unpacked.value.group) {
        TurnStops(tables, store, data, pos, implicitVR, littleEndian, stopWhen, ds);
      } else {
        var h := unpacked.value;
        var added := AddElement(store, data, pos + h.size, h, ds);
        if added.Failure? {
          TurnValueFails(tables, store, data, pos, implicitVR, littleEndian, stopWhen, ds, h);
          assert false;
        } else {
          TurnMovesOn(tables, store, data, pos, implicitVR, littleEndian, stopWhen, ds, h);
          ReadLoopStops(tables, store, data, added.value.1, implicitVR, littleEndian, stopWhen, added.value.0);
        }
      }
    }
  }

  /** What the loop adds to the records it was given: records are only ever added, each
      under a key not used before that is its keyword followed by '-' and a number, and every
      stored record's group passes the stop predicate. */
  predicate Extends(ds: Dataset, res: Dataset, stopWhen: StopWhen)
  {
    |res| >= |ds| && res[..|ds|] == ds &&
    (DistinctKeys(ds) ==> DistinctKeys(res)) &&
    forall i :: |ds| <= i < |res| ==>
      IsCandidate(res[i].tag.keyword, res[i].key) && !Stops(stopWhen, res[i].tag.representations.group)
  }

  lemma {:induction false} ReadLoopExtends(tables: Tables, store: Store, data: seq<byte>, pos: nat, implicitVR: bool, littleEndian: bool, stopWhen: StopWhen, ds: Dataset)
    requires StoresFresh(store)
    requires ReadLoop(tables, store, data, pos, implicitVR, littleEndian, stopWhen, ds).Success?
    ensures Extends(ds, ReadLoop(tables, store, data, pos, implicitVR, littleEndian, stopWhen, ds).value.0, stopWhen)
    decreases |data| - pos
  {
    var tagData := GetArrayRange(data, pos, TagLength);
    if |tagData| != TagLength {
      ReadLoopEnds(tables, store, data, pos, implicitVR, littleEndian, stopWhen, ds);
      assert ds[..|ds|] == ds;
    } else {
      var unpacked := UnpackElement(tables, data, tagData, implicitVR, littleEndian, pos);
      if unpacked.Failure? {
        TurnHeaderFails(tables, store, data, pos, implicitVR, littleEndian, stopWhen, ds);
        assert false;
      } else if Stops(stopWhen, unpacked.value.group) {
        TurnStops(tables, store, data, pos, implicitVR, littleEndian, stopWhen, ds);
        assert ds[..|ds|] == ds;
      } else {
        var h := unpacked.value;
        var added := AddElement(store, data, pos + h.size, h, ds);
        if added.Failure? {
          TurnValueFails(tables, store, data, pos, implicitVR, littleEndian, stopWhen, ds, h);
          assert false;
        } else {
          var (ds', next) := added.value;
          TurnMovesOn(tables, store, data, pos, implicitVR, littleEndian, stopWhen, ds, h);
          ReadLoopExtends(tables, store, data, next, implicitVR, littleEndian, stopWhen, ds');
          var res := ReadLoop(tables, store, data, next, implicitVR, littleEndian, stopWhen, ds').value.0;
          if Emits(h) {
            var value := GetArrayRange(data, pos + h.size, h.length);
            assert StoredFresh(h, value, ds, store(h, value, ds));
          }
          StepExtends(ds, ds', res, h, stopWhen);
        }
      }
    }
  }

  /** One stored record (or none) followed by the rest of the loop extends the records. */
  lemma StepExtends(ds: Dataset, ds': Dataset, res: Dataset, h: Header, stopWhen: StopWhen)
    requires !Stops(stopWhen, h.group)
    requires Extends(ds', res, stopWhen)
    requires Emits(h) ==> (|ds'| == |ds| + 1 && ds'[..|ds|] == ds && ds'[|ds|].key !in Keys(ds) &&
      IsCandidate(ds'[|ds|].tag.keyword, ds'[|ds|].key) && ds'[|ds|].tag.representations.group == h.group)
    requires !Emits(h) ==> ds' == ds
    ensures Extends(ds, res, stopWhen)
  {
    if Emits(h) {
      StepKeepsRecords(ds, ds', res, true);
    }
  }

  /** One step of the loop keeps the records before it, and a fresh key keeps keys distinct. */
  lemma StepKeepsRecords(ds: Dataset, ds': Dataset, res: Dataset, emitted: bool)
    requires |ds'| >= |ds| && ds'[..|ds|] == ds && |res| >= |ds'| && res[..|ds'|] == ds'
    requires emitted ==> |ds'| == |ds| + 1 && ds'[|ds|].key !in Keys(ds)
    requires !emitted ==> ds' == ds
    ensures res[..|ds|] == ds
    ensures DistinctKeys(ds) ==> DistinctKeys(ds')
    ensures emitted ==> res[|ds|] == ds'[|ds|]
  {
    PrefixTrans(ds, ds', res);
    if emitted {
      assert res[|ds|] == res[..|ds'|][|ds|];
      if DistinctKeys(ds) {
        forall i, j | 0 <= i < j < |ds'| ensures ds'[i].key != ds'[j].key {
          assert ds'[i] == ds[i];
          if j < |ds| {
            assert ds'[j] == ds[j];
          }
        }
      }
    }
  }

  lemma PrefixTrans(a: Dataset, b: Dataset, c: Dataset)
    requires |b| >= |a| && b[..|a|] == a && |c| >= |b| && c[..|b|] == b
    ensures c[..|a|] == a
  {
    assert c[..|a|] == c[..|b|][..|a|];
  }

  /** `ReadLoop` where fewer than eight bytes remain. */
  lemma ReadLoopEnds(tables: Tables, store: Store, data: seq<byte>, pos: nat, implicitVR: bool, littleEndian: bool, stopWhen: StopWhen, ds: Dataset)
    requires |GetArrayRange(data, pos, TagLength)| != TagLength
    ensures ReadLoop(tables, store, data, pos, implicitVR, littleEndian, stopWhen, ds) == Success((ds, pos))
  {
  }

  /** `ReadLoop` where a whole tag remains. */
  lemma ReadLoopReads(tables: Tables, store: Store, data: seq<byte>, pos: nat, implicitVR: bool, littleEndian: bool, stopWhen: StopWhen, ds: Dataset)
    requires |GetArrayRange(data, pos, TagLength)| == TagLength
    ensures pos + TagLength <= |data|
    ensures ReadLoop(tables, store, data, pos, implicitVR, littleEndian, stopWhen, ds)
         == ReadHeader(tables, store, data, pos, implicitVR, littleEndian, stopWhen, ds)
  {
  }

  /** A turn of the loop whose header cannot be unpacked fails as the unpacking does. */
  lemma TurnHeaderFails(tables: Tables, store: Store, data: seq<byte>, pos: nat, implicitVR: bool, littleEndian: bool, stopWhen: StopWhen, ds: Dataset)
    requires |GetArrayRange(data, pos, TagLength)| == TagLength
    requires UnpackElement(tables, data, GetArrayRange(data, pos, TagLength), implicitVR, littleEndian, pos).Failure?
    ensures ReadLoop(tables, store, data, pos, implicitVR, littleEndian, stopWhen, ds)
         == Failure(UnpackElement(tables, data, GetArrayRange(data, pos, TagLength), implicitVR, littleEndian, pos).error)
  {
    ReadLoopReads(tables, store, data, pos, implicitVR, littleEndian, stopWhen, ds);
    ReadHeaderFails(tables, store, data, pos, implicitVR, littleEndian, stopWhen, ds);
  }

  /** A turn of the loop at a header the stop predicate holds for ends the loop there. */
  lemma TurnStops(tables: Tables, store: Store, data: seq<byte>, pos: nat, implicitVR: bool, littleEndian: bool, stopWhen: StopWhen, ds: Dataset)
    requires |GetArrayRange(data, pos, TagLength)| == TagLength
    requires UnpackElement(tables, data, GetArrayRange(data, pos, TagLength), implicitVR, littleEndian, pos).Success?
    requires Stops(stopWhen, UnpackElement(tables, data, GetArrayRange(data, pos, TagLength), implicitVR, littleEndian, pos).value.group)
    ensures ReadLoop(tables, store, data, pos, implicitVR, littleEndian, stopWhen, ds) == Success((ds, pos))
  {
    ReadLoopReads(tables, store, data, pos, implicitVR, littleEndian, stopWhen, ds);
    ReadHeaderStops(tables, store, data, pos, implicitVR, littleEndian, stopWhen, ds);
  }

  /** A turn of the loop whose value cannot be stored fails as the storing does. */
  lemma TurnValueFails(tables: Tables, store: Store, data: seq<byte>, pos: nat, implicitVR: bool, littleEndian: bool, stopWhen: StopWhen, ds: Dataset, h: Header)
    requires |GetArrayRange(data, pos, TagLength)| == TagLength
    requires UnpackElement(tables, data, GetArrayRange(data, pos, TagLength), implicitVR, littleEndian, pos) == Success(h)
    requires !Stops(stopWhen, h.group)
    requires AddElement(store, data, pos + h.size, h, ds).Failure?
    ensures ReadLoop(tables, store, data, pos, implicitVR, littleEndian, stopWhen, ds)
         == Failure(AddElement(store, data, pos + h.size, h, ds).error)
  {
    ReadLoopReads(tables, store, data, pos, implicitVR, littleEndian, stopWhen, ds);
    ReadHeaderGoesOn(tables, store, data, pos, implicitVR, littleEndian, stopWhen, ds, h);
    ReadValueMovesOn(tables, store, data, pos, h, implicitVR, littleEndian, stopWhen, ds);
    ReadNextFails(tables, store, data, pos, AddElement(store, data, pos + h.size, h, ds), implicitVR, littleEndian, stopWhen);
  }

  /** A turn of the loop that skips or stores the value goes on after it, with the records
      as they then are. */
  lemma TurnMovesOn(tables: Tables, store: Store, data: seq<byte>, pos: nat, implicitVR: bool, littleEndian: bool, stopWhen: StopWhen, ds: Dataset, h: Header)
    requires |GetArrayRange(data, pos, TagLength)| == TagLength
    requires UnpackElement(tables, data, GetArrayRange(data, pos, TagLength), implicitVR, littleEndian, pos) == Success(h)
    requires !Stops(stopWhen, h.group)
    requires AddElement(store, data, pos + h.size, h, ds).Success?
    ensures pos + TagLength <= |data| && h.size >= TagLength
    ensures AddElement(store, data, pos + h.size, h, ds).value.1 >= pos + TagLength
    ensures ReadLoop(tables, store, data, pos, implicitVR, littleEndian, stopWhen, ds)
         == ReadLoop(tables, store, data, AddElement(store, data, pos + h.size, h, ds).value.1, implicitVR, littleEndian, stopWhen,
              AddElement(store, data, pos + h.size, h, ds).value.0)
  {
    ReadLoopReads(tables, store, data, pos, implicitVR, littleEndian, stopWhen, ds);
    ReadHeaderGoesOn(tables, store, data, pos, implicitVR, littleEndian, stopWhen, ds, h);
    ReadValueMovesOn(tables, store, data, pos, h, implicitVR, littleEndian, stopWhen, ds);
    ReadNextGoesOn(tables, store, data, pos, AddElement(store, data, pos + h.size, h, ds), implicitVR, littleEndian, stopWhen);
  }

  /** The result of `readDataset(bytes, cursor, isImplicitVRAssumed, isLittleEndian, stopWhen)`. */
  datatype DatasetRead = DatasetRead(dataset: Dataset, newCursorPosition: nat)

  /** What `readDataset` computes: the loop run over the bytes after the cursor, with the VR
      encoding decided once before it. */
  function ReadDatasetResult(tables: Tables, bytes: seq<byte>, cursor: nat, assumed: bool, littleEndian: bool, stopWhen: StopWhen)
    : (r: Result<DatasetRead, Error>)
  {
    var data := SplitArray(bytes, cursor).1;
    var implicitVR := IsImplicitVr(bytes, cursor, assumed, littleEndian, true, stopWhen);
    var loop := ReadLoop(tables, Storing(tables, littleEndian), data, 0, implicitVR, littleEndian, stopWhen, []);
    if loop.Failure? then Failure(loop.error) else Success(DatasetRead(loop.value.0, cursor + loop.value.1))
  }

  /** A dataset `readDataset` reads has distinct keys, each the keyword of its tag followed
      by '-' and a number; no record in it is one the stop predicate holds for; and the new
      cursor is never before the old. */
  lemma ReadDatasetKeys(tables: Tables, bytes: seq<byte>, cursor: nat, assumed: bool, littleEndian: bool, stopWhen: StopWhen)
    requires ReadDatasetResult(tables, bytes, cursor, assumed, littleEndian, stopWhen).Success?
    ensures var read := ReadDatasetResult(tables, bytes, cursor, assumed, littleEndian, stopWhen).value;
      DistinctKeys(read.dataset) && read.newCursorPosition >= cursor &&
      forall i :: 0 <= i < |read.dataset| ==>
        IsCandidate(read.dataset[i].tag.keyword, read.dataset[i].key) &&
        !Stops(stopWhen, read.dataset[i].tag.representations.group)
  {
    var data := SplitArray(bytes, cursor).1;
    var implicitVR := IsImplicitVr(bytes, cursor, assumed, littleEndian, true, stopWhen);
    StoringIsFresh(tables, littleEndian);
    ReadLoopExtends(tables, Storing(tables, littleEndian), data, 0, implicitVR, littleEndian, stopWhen, []);
  }

  /** `ReadDatasetResult` where the loop fails. */
  lemma ReadDatasetFails(tables: Tables, bytes: seq<byte>, cursor: nat, assumed: bool, littleEndian: bool, stopWhen: StopWhen)
    requires ReadLoop(tables, Storing(tables, littleEndian), SplitArray(bytes, cursor).1, 0, IsImplicitVr(bytes, cursor, assumed, littleEndian, true, stopWhen),
      littleEndian, stopWhen, []).Failure?
    ensures ReadDatasetResult(tables, bytes, cursor, assumed, littleEndian, stopWhen)
         == Failure(ReadLoop(tables, Storing(tables, littleEndian), SplitArray(bytes, cursor).1, 0, IsImplicitVr(bytes, cursor, assumed, littleEndian, true, stopWhen),
              littleEndian, stopWhen, []).error)
  {
  }

  /** `ReadDatasetResult` where the loop ends normally. */
  lemma ReadDatasetSucceeds(tables: Tables, bytes: seq<byte>, cursor: nat, assumed: bool, littleEndian: bool, stopWhen: StopWhen)
    requires ReadLoop(tables, Storing(tables, littleEndian), SplitArray(bytes, cursor).1, 0, IsImplicitVr(bytes, cursor, assumed, littleEndian, true, stopWhen),
      littleEndian, stopWhen, []).Success?
    ensures var loop := ReadLoop(tables, Storing(tables, littleEndian), SplitArray(bytes, cursor).1, 0, IsImplicitVr(bytes, cursor, assumed, littleEndian, true, stopWhen),
      littleEndian, stopWhen, []);
      var read := ReadDatasetResult(tables, bytes, cursor, assumed, littleEndian, stopWhen);
      read.Success? && read.value.dataset == loop.value.0 && read.value.newCursorPosition == cursor + loop.value.1
  {
  }

  /** How one turn of the loop ends: the loop is left, an exception escapes, or the loop
      goes on from a later position with the records as they now are. */
  datatype Turn = Break | Throw(error: Error) | Next(dataset: Dataset, position: nat)

  /** One turn of the `while (true)` loop of `readDataset` at `pos`, as the source runs it. */
  method ReadTurn(tables: Tables, data: seq<byte>, pos: nat, implicitVR: bool, littleEndian: bool, stopWhen: StopWhen, ds: Dataset)
    returns (t: Turn)
    ensures t.Break? ==> ReadLoop(tables, Storing(tables, littleEndian), data, pos, implicitVR, littleEndian, stopWhen, ds) == Success((ds, pos))
    ensures t.Throw? ==> ReadLoop(tables, Storing(tables, littleEndian), data, pos, implicitVR, littleEndian, stopWhen, ds) == Failure(t.error)
    ensures t.Next? ==>
      pos < |data| && t.position > pos &&
      ReadLoop(tables, Storing(tables, littleEndian), data, pos, implicitVR, littleEndian, stopWhen, ds)
        == ReadLoop(tables, Storing(tables, littleEndian), data, t.position, implicitVR, littleEndian, stopWhen, t.dataset)
  {
    var tagData := GetArrayRange(data, pos, TagLength);
    if |tagData| != TagLength {
      ReadLoopEnds(tables, Storing(tables, littleEndian), data, pos, implicitVR, littleEndian, stopWhen, ds);
      return Break;
    }
    var unpacked := UnpackElement(tables, data, tagData, implicitVR, littleEndian, pos);
    if unpacked.Failure? {
      TurnHeaderFails(tables, Storing(tables, littleEndian), data, pos, implicitVR, littleEndian, stopWhen, ds);
      return Throw(unpacked.error);
    }
    var h := unpacked.value;
    if Stops(stopWhen, h.group) {
      TurnStops(tables, Storing(tables, littleEndian), data, pos, implicitVR, littleEndian, stopWhen, ds);
      return Break;
    }
    var added := ReadElement(tables, data, pos + h.size, h, littleEndian, ds);
    if added.Failure? {
      TurnValueFails(tables, Storing(tables, littleEndian), data, pos, implicitVR, littleEndian, stopWhen, ds, h);
      return Throw(added.error);
    }
    TurnMovesOn(tables, Storing(tables, littleEndian), data, pos, implicitVR, littleEndian, stopWhen, ds, h);
    return Next(added.value.0, added.value.1);
  }

  /** Reading on from `pos` with the records `ds` ends as reading the region from its start
      does. */
  predicate Resumes(tables: Tables, data: seq<byte>, implicitVR: bool, littleEndian: bool, stopWhen: StopWhen, pos: nat, ds: Dataset)
  {
    ReadLoop(tables, Storing(tables, littleEndian), data, pos, implicitVR, littleEndian, stopWhen, ds) == ReadLoop(tables, Storing(tables, littleEndian), data, 0, implicitVR, littleEndian, stopWhen, [])
  }

  /** The `while (true)` loop of `readDataset`, as the source runs it: a cursor moved through
      the region, and each stored record assigned into the dataset. */
  method ReadElements(tables: Tables, data: seq<byte>, implicitVR: bool, littleEndian: bool, stopWhen: StopWhen)
    returns (r: Result<(Dataset, nat), Error>)
    ensures r == ReadLoop(tables, Storing(tables, littleEndian), data, 0, implicitVR, littleEndian, stopWhen, [])
  {
    var dataset: Dataset := [];
    var cursorPositionChange: nat := 0;
    while true
      invariant Resumes(tables, data, implicitVR, littleEndian, stopWhen, cursorPositionChange, dataset)
      decreases |data| - cursorPositionChange
    {
      var turn := ReadTurn(tables, data, cursorPositionChange, implicitVR, littleEndian, stopWhen, dataset);
      match turn
      case Break =>
        break;
      case Throw(e) =>
        return Failure(e);
      case Next(ds', next) =>
        dataset, cursorPositionChange := ds', next;
    }
    r := Success((dataset, cursorPositionChange));
    SameLoopResult(r, ReadLoop(tables, Storing(tables, littleEndian), data, 0, implicitVR, littleEndian, stopWhen, []));
  }

  /** `readDataset`, as the source runs it: the loop over the bytes after the cursor, with
      the VR encoding decided once before it. */
  method ReadDataset(tables: Tables, bytes: seq<byte>, cursor: nat, assumed: bool, littleEndian: bool, stopWhen: StopWhen)
    returns (r: Result<DatasetRead, Error>)
    ensures r == ReadDatasetResult(tables, bytes, cursor, assumed, littleEndian, stopWhen)
  {
    var data := SplitArray(bytes, cursor).1;
    var implicitVR := IsImplicitVr(bytes, cursor, assumed, littleEndian, true, stopWhen);
    var read := ReadElements(tables, data, implicitVR, littleEndian, stopWhen);
    if read.Failure? {
      ReadDatasetFails(tables, bytes, cursor, assumed, littleEndian, stopWhen);
      return Failure(read.error);
    }
    ReadDatasetSucceeds(tables, bytes, cursor, assumed, littleEndian, stopWhen);
    r := Success(DatasetRead(read.value.0, cursor + read.value.1));
    SameRead(r, ReadDatasetResult(tables, bytes, cursor, assumed, littleEndian, stopWhen));
  }

  /** Two successful runs of the loop with the same records and position are the same. */
  lemma SameLoopResult(x: Result<(Dataset, nat), Error>, y: Result<(Dataset, nat), Error>)
    requires x.Success? && y.Success?
    requires x.value.0 == y.value.0 && x.value.1 == y.value.1
    ensures x == y
  {
  }

  /** Two successful reads with the same records and cursor are the same read. */
  lemma SameRead(x: Result<DatasetRead, Error>, y: Result<DatasetRead, Error>)
    requires x.Success? && y.Success?
    requires x.value.dataset == y.value.dataset && x.value.newCursorPosition == y.value.newCursorPosition
    ensures x == y
  {
  }

  /** `readFileMetaInfo(bytes, cursor)`: the file meta information, read with explicit VR
      assumed, little endian, up to the first record outside group 0002. */
  function ReadFileMetaInfo(tables: Tables, bytes: seq<byte>, cursor: nat): (r: Result<DatasetRead, Error>)
    ensures r.Success? ==>
      DistinctKeys(r.value.dataset) && r.value.newCursorPosition >= cursor &&
      forall i :: 0 <= i < |r.value.dataset| ==> r.value.dataset[i].tag.representations.group == 2
  {
    var r := ReadDatasetResult(tables, bytes, cursor, false, true, WhenNotGroup0002);
    if r.Success? then
      ReadDatasetKeys(tables, bytes, cursor, false, true, WhenNotGroup0002);
      r
    else r
  }

  /** `readCommandSetElements(bytes, cursor)`: the command set, read the same way up to the
      first record outside group 0000. */
  function ReadCommandSetElements(tables: Tables, bytes: seq<byte>, cursor: nat): (r: Result<DatasetRead, Error>)
    ensures r.Success? ==>
      DistinctKeys(r.value.dataset) && r.value.newCursorPosition >= cursor &&
      forall i :: 0 <= i < |r.value.dataset| ==> r.value.dataset[i].tag.representations.group == 0
  {
    var r := ReadDatasetResult(tables, bytes, cursor, false, true, WhenNotGroup0000);
    if r.Success? then
      ReadDatasetKeys(tables, bytes, cursor, false, true, WhenNotGroup0000);
      r
    else r
  }

  /** A key made by `getSafeKey` always holds a '-', so no dataset read here has a key made of
      eight hexadecimal digits such as "00020010". */
  lemma NoHexKey(tables: Tables, bytes: seq<byte>, cursor: nat, assumed: bool, littleEndian: bool, stopWhen: StopWhen, key: string)
    requires ReadDatasetResult(tables, bytes, cursor, assumed, littleEndian, stopWhen).Success?
    requires forall i :: 0 <= i < |key| ==> key[i] != '-'
    ensures Get(ReadDatasetResult(tables, bytes, cursor, assumed, littleEndian, stopWhen).value.dataset, key) == None
  {
    var ds := ReadDatasetResult(tables, bytes, cursor, assumed, littleEndian, stopWhen).value.dataset;
    ReadDatasetKeys(tables, bytes, cursor, assumed, littleEndian, stopWhen);
    forall i | 0 <= i < |ds| ensures ds[i].key != key {
      assert ds[i].key[|ds[i].tag.keyword|] == '-';
    }
  }

  // ----- transfer syntax -----

  /** The byte order and VR encoding the data set is read with. */
  datatype Syntax = Syntax(isImplicitVR: bool, isLittleEndian: bool)

  /** The items of the peek pattern `<HH2s`. */
  const PeekItems: seq<Item> := [Item(1, UnsignedCode(2)), Item(1, UnsignedCode(2)), Item(2, CharsCode)]

  lemma PeekFormat()
    ensures ParseFormat("<HH2s") == Some(Format(true, PeekItems))
  {
    var u2 := Item(1, UnsignedCode(2));
    var s := "2s";
    DigitRunOf("2", "s");
    assert s == "2" + "s";
    assert s[1] == 's' && CodeOf(s[1]) == Some(CharsCode);
    assert s[..1] == "2" && s[2..] == [];
    assert ParseNat("2", 10) == 2;
    assert ParseItems(s) == Some([Item(2, CharsCode)] + []);
    assert "H2s" == ['H'] + "2s";
    SingleItem('H', "2s", UnsignedCode(2));
    assert "HH2s" == ['H'] + "H2s";
    SingleItem('H', "H2s", UnsignedCode(2));
    assert [u2] + ([u2] + ([Item(2, CharsCode)] + [])) == PeekItems;
    assert "<HH2s"[1..] == "HH2s";
  }

  /** Unpacking the peek pattern: group, element and the two VR characters, all little
      endian; fewer than six bytes do not unpack. */
  lemma PeekUnpack(data: seq<byte>)
    ensures |data| < 6 ==> Unpack("<HH2s", data, 0).None?
    ensures |data| >= 6 ==> (Unpack("<HH2s", data, 0) ==
      Some([UInt(Unsigned(data[0..2], true)), UInt(Unsigned(data[2..4], true)), Str(ArrayToText(data[4..6]))]))
  {
    PeekFormat();
    var u2, vr := Item(1, UnsignedCode(2)), Item(2, CharsCode);
    UnpackItemsDefined(PeekItems, true, data, 0);
    assert ItemsLength(PeekItems) == 6;
    assert Unpack("<HH2s", data, 0) == UnpackItems(PeekItems, true, data, 0);
    if |data| >= 6 {
      var f1, f2, f3 := UInt(Unsigned(data[0..2], true)), UInt(Unsigned(data[2..4], true)), Str(ArrayToText(data[4..6]));
      UnpackLast(vr, true, data, 4);
      CharsFields(2, true, data[4..6]);
      assert ItemLength(vr) == 2;
      assert UnpackItems([vr], true, data, 4) == Some([f3]);
      UnitFields(UnsignedCode(2), true, data[2..4]);
      UnpackCons(u2, [vr], true, data, 2);
      assert ItemLength(u2) == 2;
      assert UnpackItems([u2] + [vr], true, data, 2) == Some([f2] + [f3]);
      assert [u2] + [vr] == [u2, vr] && [f2] + [f3] == [f2, f3];
      UnitFields(UnsignedCode(2), true, data[0..2]);
      UnpackCons(u2, [u2, vr], true, data, 0);
      assert UnpackItems([u2] + [u2, vr], true, data, 0) == Some([f1] + [f2, f3]);
      assert [f1] + [f2, f3] == [f1, f2, f3];
      assert [u2] + [u2, vr] == PeekItems;
    }
  }

  /** `readOrGuessIsImplicitVrAndIsLittleEndian(bytes, cursor, transferSyntax)`. */
  function ReadOrGuess(tables: Tables, bytes: seq<byte>, cursor: nat, transferSyntax: Option<Tag>): (r: Result<Syntax, Error>)
    ensures cursor >= |bytes| ==> r == Success(Syntax(true, true))
    ensures cursor < |bytes| && transferSyntax.None? ==>
      var data := GetArrayRange(bytes, cursor, 6);
      (r.Failure? <==> |data| < 6) &&
      (r.Success? ==>
        var explicit := HasConverter(ArrayToText(data[4..6]));
        r.value == Syntax(!explicit, !explicit || Unsigned(data[0..2], true) < 1024))
    ensures cursor < |bytes| && transferSyntax.Some? ==>
      var uids := tables.knownUIDs;
      var v := transferSyntax.value.value;
      r == Success(
        if v == Strings(One(uids.implicitVRLittleEndian)) then Syntax(true, true)
        else if v == Strings(One(uids.explicitVRLittleEndian)) then Syntax(false, true)
        else if v == Strings(One(uids.explicitVRBigEndian)) then Syntax(false, false)
        else if v == Strings(One(uids.deflatedExplicitVRLittleEndian)) then Syntax(true, true)
        else Syntax(false, true))
  {
    var peek := GetArrayRange(bytes, cursor, 1);
    if |peek| == 0 then Success(Syntax(true, true))
    else if transferSyntax.None? then
      var data := GetArrayRange(bytes, cursor, 6);
      PeekUnpack(data);
      match Unpack("<HH2s", data, 0)
      case None => Failure(TruncatedUnpack)
      case Some(fields) =>
        var group := fields[0].u;
        var vr := fields[2].s;
        if HasConverter(vr) then
          if group >= 1024 then Success(Syntax(false, false)) else Success(Syntax(false, true))
        else Success(Syntax(true, true))
    else
      var uids := tables.knownUIDs;
      match transferSyntax.value.value
      case Strings(One(uid)) =>
        if uid == uids.implicitVRLittleEndian then Success(Syntax(true, true))
        else if uid == uids.explicitVRLittleEndian then Success(Syntax(false, true))
        else if uid == uids.explicitVRBigEndian then Success(Syntax(false, false))
        else if uid == uids.deflatedExplicitVRLittleEndian then Success(Syntax(true, true))
        else Success(Syntax(false, true))
      case _ => Success(Syntax(false, true))
  }

  // ----- the whole file -----

  /** `FullDataset`: the merged elements and the syntax the data set was read with. */
  datatype FullDataset = FullDataset(elements: Dataset, isLittleEndian: bool, isImplicitVR: bool)

  /** The key `parseFile` looks the transfer syntax up under. */
  const TransferSyntaxKey := "00020010"

  /** `parseFile(bytes)`: preamble, file meta information, command set, then the data set
      read with the syntax decided at its start; the three are merged with the command set
      winning over the file meta information, which wins over the data set. */
  function ParseFile(tables: Tables, bytes: seq<byte>): (r: Result<FullDataset, Error>)
    ensures var fileMeta := ReadFileMetaInfo(tables, bytes, ReadPreamble(bytes).1);
      fileMeta.Failure? ==> r == Failure(fileMeta.error)
    ensures var fileMeta := ReadFileMetaInfo(tables, bytes, ReadPreamble(bytes).1);
      fileMeta.Success? ==>
      var commandSet := ReadCommandSetElements(tables, bytes, fileMeta.value.newCursorPosition);
      commandSet.Failure? ==> r == Failure(commandSet.error)
    ensures var fileMeta := ReadFileMetaInfo(tables, bytes, ReadPreamble(bytes).1);
      fileMeta.Success? ==>
      var commandSet := ReadCommandSetElements(tables, bytes, fileMeta.value.newCursorPosition);
      commandSet.Success? ==>
      var start := commandSet.value.newCursorPosition;
      var syntax := ReadOrGuess(tables, bytes, start, None);
      (syntax.Failure? ==> r == Failure(syntax.error)) &&
      (syntax.Success? ==>
        var dataset := ReadDatasetResult(tables, bytes, start, syntax.value.isImplicitVR, syntax.value.isLittleEndian, Never);
        (dataset.Failure? ==> r == Failure(dataset.error)) &&
        (dataset.Success? ==>
          r.Success? && r.value.isImplicitVR == syntax.value.isImplicitVR &&
          r.value.isLittleEndian == syntax.value.isLittleEndian &&
          Keys(r.value.elements) == Keys(dataset.value.dataset) + Keys(fileMeta.value.dataset) + Keys(commandSet.value.dataset)))
  {
    var (_, cursorAfterPreamble) := ReadPreamble(bytes);
    var fileMeta :- ReadFileMetaInfo(tables, bytes, cursorAfterPreamble);
    var commandSet :- ReadCommandSetElements(tables, bytes, fileMeta.newCursorPosition);
    var datasetStart := commandSet.newCursorPosition;
    ParseFileGuessesSyntax(tables, bytes);
    var transferSyntax := Get(fileMeta.dataset, TransferSyntaxKey);
    var syntax :- ReadOrGuess(tables, bytes, datasetStart, transferSyntax);
    var dataset :- ReadDatasetResult(tables, bytes, datasetStart, syntax.isImplicitVR, syntax.isLittleEndian, Never);
    Success(FullDataset(Merge(Merge(dataset.dataset, fileMeta.dataset), commandSet.dataset),
      syntax.isLittleEndian, syntax.isImplicitVR))
  }

  lemma TransferSyntaxKeyHasNoDash()
    ensures forall i :: 0 <= i < |TransferSyntaxKey| ==> TransferSyntaxKey[i] != '-'
  {
  }

  /** The transfer syntax is never found: the file meta information is keyed by keyword, so
      the syntax is always guessed from the bytes at the start of the data set. */
  lemma ParseFileGuessesSyntax(tables: Tables, bytes: seq<byte>)
    ensures var cursorAfterPreamble := ReadPreamble(bytes).1;
      var fileMeta := ReadFileMetaInfo(tables, bytes, cursorAfterPreamble);
      fileMeta.Success? ==> Get(fileMeta.value.dataset, TransferSyntaxKey) == None
  {
    var cursorAfterPreamble := ReadPreamble(bytes).1;
    if ReadFileMetaInfo(tables, bytes, cursorAfterPreamble).Success? {
      TransferSyntaxKeyHasNoDash();
      NoHexKey(tables, bytes, cursorAfterPreamble, false, true, WhenNotGroup0002, TransferSyntaxKey);
    }
  }

  /** When the three regions and the data set read, `parseFile` succeeds with the syntax
      guessed at the start of the data set, and its elements are those of the three regions;
      under a key used by more than one region, the command set's element wins, then the file
      meta information's. */
  lemma ParseFileElements(tables: Tables, bytes: seq<byte>, fileMeta: DatasetRead, commandSet: DatasetRead,
                          syntax: Syntax, dataset: DatasetRead, key: string)
    requires ReadFileMetaInfo(tables, bytes, ReadPreamble(bytes).1) == Success(fileMeta)
    requires ReadCommandSetElements(tables, bytes, fileMeta.newCursorPosition) == Success(commandSet)
    requires ReadOrGuess(tables, bytes, commandSet.newCursorPosition, None) == Success(syntax)
    requires ReadDatasetResult(tables, bytes, commandSet.newCursorPosition, syntax.isImplicitVR, syntax.isLittleEndian, Never)
          == Success(dataset)
    ensures ParseFile(tables, bytes).Success?
    ensures var full := ParseFile(tables, bytes).value;
      full.isImplicitVR == syntax.isImplicitVR && full.isLittleEndian == syntax.isLittleEndian &&
      Keys(full.elements) == Keys(dataset.dataset) + Keys(fileMeta.dataset) + Keys(commandSet.dataset) &&
      Get(full.elements, key) ==
        if key in Keys(commandSet.dataset) then Get(commandSet.dataset, key)
        else if key in Keys(fileMeta.dataset) then Get(fileMeta.dataset, key)
        else Get(dataset.dataset, key)
  {
    ParseFileGuessesSyntax(tables, bytes);
    ReadDatasetKeys(tables, bytes, ReadPreamble(bytes).1, false, true, WhenNotGroup0002);
    ReadDatasetKeys(tables, bytes, fileMeta.newCursorPosition, false, true, WhenNotGroup0000);
    var inner := Merge(dataset.dataset, fileMeta.dataset);
    MergeGet(inner, commandSet.dataset, key);
    MergeGet(dataset.dataset, fileMeta.dataset, key);
  }
}
