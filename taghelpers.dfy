/** Tag enrichment and lookup: `createTag` adds the dictionary's description of an element,
    `getTagInfo` resolves the VR used to convert its value, and `getTagValue` and
    `getTagsGroup` find elements in a dataset. */
module TagHelpers {
  import opened Wrappers
  import opened Text
  import opened Bytes
  import opened Helpers
  import opened Dicom

  /** The text every descriptive field of a private tag holds. */
  const PrivateTagText := "Unknown-PrivateTag"

  /** Private tags have an odd group number (section 7.8 of DICOM PS3.5). */
  predicate IsPrivateGroup(group: nat)
  {
    group % 2 != 0
  }

  /** `getTagName(entry, isPrivateTag)`. */
  function GetTagName(entry: Option<DictionaryEntry>, isPrivateTag: bool): (name: string)
    ensures isPrivateTag ==> name == "PrivateTag"
    ensures !isPrivateTag && entry.None? ==> name == "Unknown"
    ensures !isPrivateTag && entry.Some? ==> name == entry.value.name
  {
    if isPrivateTag then "PrivateTag"
    else if entry.None? then "Unknown"
    else entry.value.name
  }

  /** The dictionary entry of a tag: the group length entry for element 0000, otherwise the
      dictionary's entry under the eight hexadecimal digits, when it has one. */
  function EntryOf(tables: Tables, hexGroup: string, hexElement: string): Option<DictionaryEntry>
  {
    if hexElement == "0000" then Some(tables.groupLengthEntry)
    else if hexGroup + hexElement in tables.dictionary then Some(tables.dictionary[hexGroup + hexElement])
    else None
  }

  /** The fields of a dictionary entry read with a default (`DicomDictionaryEntriesEnum`). */
  datatype EntryField = NameField | VMField | KeywordField | RetiredField

  /** lodash `get(entry, field, 'Unknown')`. */
  function FieldOr(entry: Option<DictionaryEntry>, field: EntryField): string
  {
    if entry.None? then "Unknown"
    else
      match field
      case NameField => entry.value.name
      case VMField => entry.value.vm
      case KeywordField => entry.value.keyword
      case RetiredField => entry.value.retired
  }

  /** `createTag(group, element, values)`. It fails where the source reads the VR of a missing
      dictionary entry: a public tag without a wire VR that the dictionary does not know. */
  function CreateTag(tables: Tables, group: nat, element: nat, values: TagValues): (r: Result<Tag, Error>)
    ensures var (hexGroup, hexElement) := GetHexRepresentation(group, element);
      var entry := EntryOf(tables, hexGroup, hexElement);
      (r.Failure? <==> !IsPrivateGroup(group) && values.vr == "" && entry.None?) &&
      (r.Success? ==>
        var t := r.value;
        t.length == values.length && t.rawValue == values.rawValue && t.value == values.value &&
        t.representation == hexGroup + hexElement && |t.representation| == 8 &&
        t.representations == Representations(group, element, hexGroup, hexElement,
          [hexGroup, hexElement], hexGroup + hexElement, GetTagName(entry, IsPrivateGroup(group))) &&
        (IsPrivateGroup(group) ==>
          t.vr == PrivateTagText && t.name == PrivateTagText && t.vm == PrivateTagText &&
          t.keyword == PrivateTagText && t.retired == PrivateTagText) &&
        (!IsPrivateGroup(group) ==>
          t.vr == (if values.vr != "" then values.vr else entry.value.vr) &&
          t.name == FieldOr(entry, NameField) && t.vm == FieldOr(entry, VMField) &&
          t.keyword == FieldOr(entry, KeywordField) && t.retired == FieldOr(entry, RetiredField)))
  {
    var isPrivateTag := IsPrivateGroup(group);
    var (hexGroup, hexElement) := GetHexRepresentation(group, element);
    var stringRepresentation := hexGroup + hexElement;
    var entry := EntryOf(tables, hexGroup, hexElement);
    var representations := Representations(group, element, hexGroup, hexElement,
      [hexGroup, hexElement], stringRepresentation, GetTagName(entry, isPrivateTag));
    if isPrivateTag then
      Success(Tag(PrivateTagText, values.length, values.rawValue, values.value, representations,
        stringRepresentation, PrivateTagText, PrivateTagText, PrivateTagText, PrivateTagText))
    else if values.vr == "" && entry.None? then
      Failure(UndefinedDictionaryEntry)
    else
      Success(Tag(if values.vr != "" then values.vr else entry.value.vr,
        values.length, values.rawValue, values.value, representations, stringRepresentation,
        GetTagName(entry, false), FieldOr(entry, VMField), FieldOr(entry, KeywordField),
        FieldOr(entry, RetiredField)))
  }

  /** A private tag is described the same way whatever the tables hold. */
  lemma PrivateTagIgnoresTables(t1: Tables, t2: Tables, group: nat, element: nat, values: TagValues)
    requires IsPrivateGroup(group)
    ensures CreateTag(t1, group, element, values) == CreateTag(t2, group, element, values)
    ensures CreateTag(t1, group, element, values).Success?
  {
  }

  /** A group length tag (element 0000 of a public group) is described by the group length
      entry, whatever the dictionary holds. */
  lemma GroupLengthTag(tables: Tables, dictionary: map<string, DictionaryEntry>, group: nat, values: TagValues)
    requires !IsPrivateGroup(group)
    ensures var other := tables.(dictionary := dictionary);
      CreateTag(tables, group, 0, values) == CreateTag(other, group, 0, values)
    ensures var r := CreateTag(tables, group, 0, values);
      r.Success? && r.value.keyword == tables.groupLengthEntry.keyword &&
      r.value.vr == (if values.vr != "" then values.vr else tables.groupLengthEntry.vr)
  {
    assert GetHexRepresentation(group, 0).1 == "0000" by {
      FixedDigitsOfZero(16, 4);
      assert Zeros(4) == "0000";
    }
  }

  /** The representation names the tag: for 16-bit numbers the group and the element are
      read back from its two halves. */
  lemma RepresentationNamesTag(tables: Tables, group: nat, element: nat, values: TagValues)
    requires group < 0x10000 && element < 0x10000
    requires CreateTag(tables, group, element, values).Success?
    ensures var t := CreateTag(tables, group, element, values).value;
      ParseNat(t.representation[..4], 16) == group && ParseNat(t.representation[4..], 16) == element
  {
    var t := CreateTag(tables, group, element, values).value;
    HexRepresentationRoundTrip(group, element);
    assert t.representation[..4] == GetHexRepresentation(group, element).0;
    assert t.representation[4..] == GetHexRepresentation(group, element).1;
  }

  /** `ITagInfo`: the raw bytes, the length and the VR to convert with. */
  datatype TagInfo = TagInfo(rawValue: seq<byte>, length: nat, vr: string)

  /** `getTagInfo(rawValue, length, group, element, VR)`: throws when group, element and VR
      are all falsy; keeps a wire VR; otherwise takes the VR of the group length entry for
      element 0000, else the dictionary's, else ''. */
  function GetTagInfo(tables: Tables, rawValue: seq<byte>, length: nat, group: nat, element: nat, vr: string)
    : (r: Result<TagInfo, Error>)
    ensures r.Failure? <==> group == 0 && element == 0 && vr == ""
    ensures r.Success? ==> r.value.rawValue == rawValue && r.value.length == length
    ensures r.Success? && vr != "" ==> r.value.vr == vr
    ensures r.Success? && vr == "" ==>
      var (hexGroup, hexElement) := GetHexRepresentation(group, element);
      r.value.vr == (if hexElement == "0000" then tables.groupLengthEntry.vr
                     else if hexGroup + hexElement in tables.dictionary then tables.dictionary[hexGroup + hexElement].vr
                     else "")
  {
    if group == 0 && element == 0 && vr == "" then Failure(MissingTagIdentity)
    else if vr != "" then Success(TagInfo(rawValue, length, vr))
    else
      var (hexGroup, hexElement) := GetHexRepresentation(group, element);
      var entry := if hexGroup + hexElement in tables.dictionary then Some(tables.dictionary[hexGroup + hexElement]) else None;
      var guessVR :=
        if hexElement == "0000" then tables.groupLengthEntry.vr
        else if entry.Some? then entry.value.vr
        else "";
      Success(TagInfo(rawValue, length, guessVR))
  }

  /** For a public tag the VR `getTagInfo` resolves is the VR `createTag` records. */
  lemma TagInfoAgreesWithTag(tables: Tables, rawValue: seq<byte>, length: nat, group: nat, element: nat, values: TagValues)
    requires !IsPrivateGroup(group)
    requires CreateTag(tables, group, element, values).Success?
    requires GetTagInfo(tables, rawValue, length, group, element, values.vr).Success?
    ensures GetTagInfo(tables, rawValue, length, group, element, values.vr).value.vr
         == CreateTag(tables, group, element, values).value.vr
  {
  }

  // ----- lookup -----

  /** One element of an array identifier: a number or a string. */
  datatype Part = N(n: int) | S(s: string)

  /** The identifiers `getTagValue` accepts: an array, or a string. */
  datatype Query = Tuple(parts: seq<Part>) | Key(key: string)

  /** lodash `toLower`: numbers are turned into their decimal text first. */
  function PartText(p: Part): string
  {
    match p
    case N(n) => IntToString(n, 10)
    case S(s) => ToLower(s)
  }

  /** The characters dropped from a string identifier: '(', ',' and white space. */
  predicate IsDropped(c: char)
  {
    c == '(' || c == ',' || IsWhiteSpace(c)
  }

  /** `s.replace(/(\(|,|\s)/g, '')`. */
  function DropSeparators(s: string): (r: string)
    ensures |r| <= |s|
    ensures forall i :: 0 <= i < |r| ==> !IsDropped(r[i])
    ensures |s| == 1 ==> r == (if IsDropped(s[0]) then [] else s)
  {
    if s == [] then []
    else (if IsDropped(s[0]) then [] else [s[0]]) + DropSeparators(s[1..])
  }

  /** Every character that is not a separator is kept as often as it occurs. */
  lemma {:induction false} DropSeparatorsCounts(s: string, c: char)
    requires !IsDropped(c)
    ensures multiset(DropSeparators(s))[c] == multiset(s)[c]
  {
    if s != [] {
      assert s == [s[0]] + s[1..];
      DropSeparatorsCounts(s[1..], c);
    }
  }

  lemma {:induction false} DropSeparatorsAppend(a: string, b: string)
    ensures DropSeparators(a + b) == DropSeparators(a) + DropSeparators(b)
  {
    if a != [] {
      assert (a + b)[0] == a[0];
      assert (a + b)[1..] == a[1..] + b;
      DropSeparatorsAppend(a[1..], b);
      assert DropSeparators(a) == (if IsDropped(a[0]) then [] else [a[0]]) + DropSeparators(a[1..]);
    } else {
      assert a + b == b;
    }
  }

  lemma {:induction false} DropSeparatorsNone(s: string)
    requires forall i :: 0 <= i < |s| ==> !IsDropped(s[i])
    ensures DropSeparators(s) == s
  {
    if s != [] {
      DropSeparatorsNone(s[1..]);
    }
  }

  /** `getMatchedTag(representation, tag)`. */
  predicate GetMatchedTag(q: Query, tag: Tag)
  {
    match q
    case Tuple(parts) =>
      if |parts| > 0 && parts[0].N? then
        parts == [N(tag.representations.group), N(tag.representations.element)]
      else if |parts| > 0 && parts[0].S? then
        var tuple := tag.representations.tuple;
        seq(|tuple|, i requires 0 <= i < |tuple| => ToLower(tuple[i])) ==
        seq(|parts|, i requires 0 <= i < |parts| => PartText(parts[i]))
      else false
    case Key(k) =>
      ToLower(tag.name) == ToLower(k) || ToLower(tag.keyword) == ToLower(k) ||
      ToLower(tag.representation) == DropSeparators(ToLower(k))
  }

  /** What `getTagValue` gives: `null` for a malformed tuple, `undefined` when nothing
      matches, or the first matching tag. */
  datatype Lookup = Null | NotFound | Found(tag: Tag)

  /** `tags[i]` is the first tag that matches. */
  predicate IsFirstMatch(tags: seq<Tag>, q: Query, i: int)
  {
    0 <= i < |tags| && GetMatchedTag(q, tags[i]) && forall j :: 0 <= j < i ==> !GetMatchedTag(q, tags[j])
  }

  /** lodash `find`: the first tag in order that matches. */
  function FindTag(tags: seq<Tag>, q: Query): (r: Lookup)
    ensures !r.Null?
    ensures r.NotFound? <==> forall i :: 0 <= i < |tags| ==> !GetMatchedTag(q, tags[i])
    ensures r.Found? ==> exists i :: IsFirstMatch(tags, q, i) && tags[i] == r.tag
  {
    if tags == [] then NotFound
    else if GetMatchedTag(q, tags[0]) then Found(tags[0])
    else
      var r := FindTag(tags[1..], q);
      FindTagStep(tags, q, r);
      r
  }

  /** A match found after the first tag, which does not match, is the first match overall. */
  lemma FindTagStep(tags: seq<Tag>, q: Query, r: Lookup)
    requires tags != [] && !GetMatchedTag(q, tags[0])
    requires r.NotFound? <==> forall i :: 0 <= i < |tags[1..]| ==> !GetMatchedTag(q, tags[1..][i])
    requires r.Found? ==> exists i :: IsFirstMatch(tags[1..], q, i) && tags[1..][i] == r.tag
    ensures r.NotFound? <==> forall i :: 0 <= i < |tags| ==> !GetMatchedTag(q, tags[i])
    ensures r.Found? ==> exists i :: IsFirstMatch(tags, q, i) && tags[i] == r.tag
  {
    assert forall i :: 0 < i < |tags| ==> tags[i] == tags[1..][i - 1];
    if r.Found? {
      var i :| IsFirstMatch(tags[1..], q, i) && tags[1..][i] == r.tag;
      assert tags[i + 1] == r.tag;
      forall j | 0 < j < i + 1 ensures !GetMatchedTag(q, tags[j]) {
        assert tags[j] == tags[1..][j - 1];
      }
      assert IsFirstMatch(tags, q, i + 1);
    }
  }

  /** `getTagValue(dataset, representation)`. */
  function GetTagValue(ds: Dataset, q: Query): (r: Lookup)
    ensures r.Null? <==> q.Tuple? && |q.parts| != 2
    ensures !r.Null? ==> r == FindTag(Tags(ds), q)
  {
    if q.Tuple? && |q.parts| != 2 then Null else FindTag(Tags(ds), q)
  }

  /** Distinct 16-bit tags are distinguished by their numeric tuple. */
  lemma MatchNumericTuple(tables: Tables, group: nat, element: nat, values: TagValues, g: int, e: int)
    requires CreateTag(tables, group, element, values).Success?
    ensures (GetMatchedTag(Tuple([N(g), N(e)]), CreateTag(tables, group, element, values).value)
        <==> g == group && e == element)
  {
  }

  /** A created tag is found by its hexadecimal tuple in any letter case. */
  lemma MatchHexTuple(tables: Tables, group: nat, element: nat, values: TagValues, g: string, e: string)
    requires CreateTag(tables, group, element, values).Success?
    ensures var (hexGroup, hexElement) := GetHexRepresentation(group, element);
      var t := CreateTag(tables, group, element, values).value;
      GetMatchedTag(Tuple([S(g), S(e)]), t) <==> ToLower(g) == hexGroup && ToLower(e) == hexElement
  {
    var (hexGroup, hexElement) := GetHexRepresentation(group, element);
    var t := CreateTag(tables, group, element, values).value;
    ToLowerHex(hexGroup);
    ToLowerHex(hexElement);
    var lhs := seq(2, i requires 0 <= i < 2 => ToLower(t.representations.tuple[i]));
    var rhs := seq(2, i requires 0 <= i < 2 => PartText([S(g), S(e)][i]));
    assert lhs == [hexGroup, hexElement];
    assert rhs == [ToLower(g), ToLower(e)];
  }

  /** A created tag is found by its eight hexadecimal digits, also written with a comma or
      spaces between group and element or with an opening parenthesis. */
  lemma MatchHexString(tables: Tables, group: nat, element: nat, values: TagValues, prefix: string, separator: string)
    requires CreateTag(tables, group, element, values).Success?
    requires forall i :: 0 <= i < |prefix| ==> IsDropped(prefix[i])
    requires forall i :: 0 <= i < |separator| ==> IsDropped(separator[i])
    ensures var (hexGroup, hexElement) := GetHexRepresentation(group, element);
      GetMatchedTag(Key(prefix + hexGroup + separator + ToUpper(hexElement)), CreateTag(tables, group, element, values).value)
  {
    var (hexGroup, hexElement) := GetHexRepresentation(group, element);
    var t := CreateTag(tables, group, element, values).value;
    var k := prefix + hexGroup + separator + ToUpper(hexElement);
    ToLowerHex(hexGroup);
    ToLowerHex(hexElement);
    LowerOfUpperHex(hexElement);
    LowerOfDropped(prefix);
    LowerOfDropped(separator);
    ToLowerAppend(prefix, hexGroup);
    ToLowerAppend(prefix + hexGroup, separator);
    ToLowerAppend(prefix + hexGroup + separator, ToUpper(hexElement));
    assert ToLower(k) == prefix + hexGroup + separator + hexElement;
    DropSeparatorsAppend(prefix, hexGroup);
    DropSeparatorsAppend(prefix + hexGroup, separator);
    DropSeparatorsAppend(prefix + hexGroup + separator, hexElement);
    DropAll(prefix);
    DropAll(separator);
    HexNotDropped(hexGroup);
    HexNotDropped(hexElement);
    assert DropSeparators(ToLower(k)) == hexGroup + hexElement;
    ToLowerHex(hexGroup + hexElement);
  }

  /** The parenthesised form "(gggg,eeee)" is not found through the representation: the
      closing parenthesis is not among the dropped characters, so nine characters remain. */
  lemma ParenthesisedMisses(tables: Tables, group: nat, element: nat, values: TagValues)
    requires CreateTag(tables, group, element, values).Success?
    ensures var (hexGroup, hexElement) := GetHexRepresentation(group, element);
      var t := CreateTag(tables, group, element, values).value;
      var k := "(" + hexGroup + "," + hexElement + ")";
      ToLower(t.representation) != DropSeparators(ToLower(k))
  {
    var (hexGroup, hexElement) := GetHexRepresentation(group, element);
    ParenthesisedKey(hexGroup, hexElement);
  }

  /** "(gggg,eeee)" of lowercase hexadecimal digits keeps its case and loses only the
      opening parenthesis and the comma. */
  lemma ParenthesisedKey(hexGroup: string, hexElement: string)
    requires forall i :: 0 <= i < |hexGroup| ==> IsLowerHexDigit(hexGroup[i])
    requires forall i :: 0 <= i < |hexElement| ==> IsLowerHexDigit(hexElement[i])
    ensures var k := "(" + hexGroup + "," + hexElement + ")";
      ToLower(k) == k && |DropSeparators(k)| == |hexGroup| + |hexElement| + 1
  {
    var k := "(" + hexGroup + "," + hexElement + ")";
    assert ToLower(k) == k by {
      ToLowerHex(hexGroup);
      ToLowerHex(hexElement);
      ToLowerAppend("(", hexGroup);
      ToLowerAppend("(" + hexGroup, ",");
      ToLowerAppend("(" + hexGroup + ",", hexElement);
      ToLowerAppend("(" + hexGroup + "," + hexElement, ")");
    }
    DropSeparatorsAppend("(", hexGroup);
    DropSeparatorsAppend("(" + hexGroup, ",");
    DropSeparatorsAppend("(" + hexGroup + ",", hexElement);
    DropSeparatorsAppend("(" + hexGroup + "," + hexElement, ")");
    HexNotDropped(hexGroup);
    HexNotDropped(hexElement);
    assert DropSeparators(")") == ")";
  }

  lemma ToLowerAppend(a: string, b: string)
    ensures ToLower(a + b) == ToLower(a) + ToLower(b)
  {
  }

  lemma LowerOfUpperHex(s: string)
    requires forall i :: 0 <= i < |s| ==> IsLowerHexDigit(s[i])
    ensures ToLower(ToUpper(s)) == s
  {
  }

  lemma LowerOfDropped(s: string)
    requires forall i :: 0 <= i < |s| ==> IsDropped(s[i])
    ensures ToLower(s) == s
  {
  }

  lemma {:induction false} DropAll(s: string)
    requires forall i :: 0 <= i < |s| ==> IsDropped(s[i])
    ensures DropSeparators(s) == []
  {
    if s != [] {
      DropAll(s[1..]);
    }
  }

  lemma HexNotDropped(s: string)
    requires forall i :: 0 <= i < |s| ==> IsLowerHexDigit(s[i])
    ensures DropSeparators(s) == s
  {
    DropSeparatorsNone(s);
  }

  /** The search elements of the lookup test: a tag with a distinct name, keyword and
      representation is found by each of them, by its numeric tuple and by its hexadecimal
      tuple. */
  lemma FoundByEveryIdentifier(ds: Dataset, i: nat, tables: Tables, group: nat, element: nat, values: TagValues)
    requires i < |ds| && CreateTag(tables, group, element, values) == Success(ds[i].tag)
    requires forall j :: 0 <= j < |ds| && j != i ==>
      ds[j].tag.representations.group != group || ds[j].tag.representations.element != element
    requires forall j :: 0 <= j < i ==> !GetMatchedTag(Key(ds[i].tag.keyword), ds[j].tag)
    ensures GetTagValue(ds, Tuple([N(group), N(element)])) == Found(ds[i].tag)
    ensures GetTagValue(ds, Key(ds[i].tag.keyword)) == Found(ds[i].tag)
  {
    var t := ds[i].tag;
    var tags := Tags(ds);
    var q := Tuple([N(group), N(element)]);
    assert GetMatchedTag(q, tags[i]);
    var r := FindTag(tags, q);
    var m :| IsFirstMatch(tags, q, m) && tags[m] == r.tag;
    assert m == i;
    var q2 := Key(t.keyword);
    assert GetMatchedTag(q2, tags[i]);
    var r2 := FindTag(tags, q2);
    var m2 :| IsFirstMatch(tags, q2, m2) && tags[m2] == r2.tag;
    assert m2 == i;
  }

  // ----- group sub-maps -----

  /** lodash `filter` on the group: the tags whose hexadecimal group is the argument, in order. */
  function GroupMembers(tags: seq<Tag>, group: string): (r: seq<Tag>)
    ensures forall i :: 0 <= i < |r| ==> r[i].representations.hexGroup == group
    ensures forall i :: 0 <= i < |tags| && tags[i].representations.hexGroup == group ==> tags[i] in r
    ensures forall t :: t in r ==> t in tags
  {
    if tags == [] then []
    else
      var rest := GroupMembers(tags[1..], group);
      assert forall i :: 0 < i < |tags| ==> tags[i] == tags[1..][i - 1];
      if tags[0].representations.hexGroup == group then [tags[0]] + rest else rest
  }

  /** The key of a tag in a group sub-map: its keyword with the first letter lowercased. */
  function KeywordKey(keyword: string): (k: string)
    requires keyword != []
    ensures |k| == |keyword| && k[0] == LowerChar(keyword[0]) && k[1..] == keyword[1..]
  {
    [LowerChar(keyword[0])] + keyword[1..]
  }

  /** The lodash `reduce` of `getTagsGroup`: each tag assigned in turn under its key. */
  function CollectByKeyword(acc: Dataset, tags: seq<Tag>): (r: Result<Dataset, Error>)
    ensures r.Failure? <==> exists i :: 0 <= i < |tags| && tags[i].keyword == []
    decreases |tags|
  {
    if tags == [] then Success(acc)
    else if tags[0].keyword == [] then Failure(EmptyKeyword)
    else
      var r := CollectByKeyword(Put(acc, KeywordKey(tags[0].keyword), tags[0]), tags[1..]);
      assert forall i :: 0 < i < |tags| ==> tags[i] == tags[1..][i - 1];
      r
  }

  /** The last tag with the given key, if any. */
  function LastWithKey(tags: seq<Tag>, k: string): (r: Option<Tag>)
    requires forall i :: 0 <= i < |tags| ==> tags[i].keyword != []
    ensures r.Some? ==> r.value in tags && KeywordKey(r.value.keyword) == k
    ensures r.None? ==> forall i :: 0 <= i < |tags| ==> KeywordKey(tags[i].keyword) != k
  {
    if tags == [] then None
    else
      var last := tags[|tags| - 1];
      if KeywordKey(last.keyword) == k then Some(last)
      else
        var r := LastWithKey(tags[..|tags| - 1], k);
        assert forall i :: 0 <= i < |tags| - 1 ==> tags[i] == tags[..|tags| - 1][i];
        r
  }

  /** After the reduce, a key holds the last tag assigned under it: a later duplicate
      replaces an earlier one. */
  lemma {:induction false} CollectGet(acc: Dataset, tags: seq<Tag>, k: string)
    requires forall i :: 0 <= i < |tags| ==> tags[i].keyword != []
    ensures CollectByKeyword(acc, tags).Success?
    ensures Get(CollectByKeyword(acc, tags).value, k) ==
      match LastWithKey(tags, k) case Some(t) => Some(t) case None => Get(acc, k)
    decreases |tags|
  {
    if tags != [] {
      var acc' := Put(acc, KeywordKey(tags[0].keyword), tags[0]);
      var rest := tags[1..];
      CollectGet(acc', rest, k);
      LastWithKeyCons(tags, k);
    }
  }

  /** The last tag with a key is the last one among the later tags, or else the first tag. */
  lemma {:induction false} LastWithKeyCons(tags: seq<Tag>, k: string)
    requires tags != [] && forall i :: 0 <= i < |tags| ==> tags[i].keyword != []
    ensures LastWithKey(tags, k) ==
      if LastWithKey(tags[1..], k).Some? then LastWithKey(tags[1..], k)
      else if KeywordKey(tags[0].keyword) == k then Some(tags[0])
      else None
    decreases |tags|
  {
    if |tags| > 1 {
      var init := tags[..|tags| - 1];
      assert tags[1..][..|tags[1..]| - 1] == init[1..];
      assert tags[1..][|tags[1..]| - 1] == tags[|tags| - 1];
      if KeywordKey(tags[|tags| - 1].keyword) != k {
        LastWithKeyCons(init, k);
      }
    }
  }

  /** `getTagsGroup(dataset, group)`: the tags of one group, keyed by keyword. */
  function GetTagsGroup(ds: Dataset, group: string): (r: Result<Dataset, Error>)
    ensures r.Failure? <==> exists t :: t in GroupMembers(Tags(ds), group) && t.keyword == []
  {
    var members := GroupMembers(Tags(ds), group);
    var r := CollectByKeyword([], members);
    assert (exists i :: 0 <= i < |members| && members[i].keyword == []) <==>
           (exists t :: t in members && t.keyword == []);
    r
  }

  /** Every tag of a group sub-map belongs to the group, and every tag of the group is in it
      under its key unless a later tag of the group has the same key. */
  lemma TagsGroupMembers(ds: Dataset, group: string, k: string)
    requires GetTagsGroup(ds, group).Success?
    ensures var members := GroupMembers(Tags(ds), group);
      var r := GetTagsGroup(ds, group).value;
      Get(r, k) == LastWithKey(members, k) &&
      (Get(r, k).Some? ==> Get(r, k).value.representations.hexGroup == group)
  {
    var members := GroupMembers(Tags(ds), group);
    assert forall i :: 0 <= i < |members| ==> members[i].keyword != [] by {
      forall i | 0 <= i < |members| ensures members[i].keyword != [] {
        assert members[i] in members;
      }
    }
    CollectGet([], members, k);
    var last := LastWithKey(members, k);
    if last.Some? {
      var i :| 0 <= i < |members| && members[i] == last.value;
    }
  }
}
