/** The decoder's data model: dictionary entries, decoded values, tags, and the dataset
    object that holds tags under string keys.

    A dataset is a JavaScript object. Its keys keep their insertion order, which `find` and the
    object spread `{...a, ...b}` observe, so it is modelled as a sequence of records: assigning
    to an existing key replaces that record in place, and assigning to a new key appends one. */
module Dicom {
  import opened Wrappers
  import opened Bytes
  import opened Bufferpack
  import opened JsNumber
  import opened Helpers
  import opened MultiString

  /** A dictionary entry, stored as the array `[VR, VM, Name, Retired, Keyword]`. */
  datatype DictionaryEntry = DictionaryEntry(vr: string, vm: string, name: string, retired: string, keyword: string)

  /** The transfer syntax UIDs the decoder recognises (section A of DICOM PS3.5). */
  datatype KnownUIDs = KnownUIDs(
    implicitVRLittleEndian: string,
    explicitVRLittleEndian: string,
    explicitVRBigEndian: string,
    deflatedExplicitVRLittleEndian: string)

  /** The tables the decoder imports and that are not part of this model: the tag dictionary
      keyed by the eight hexadecimal digits of group and element, the entry used for group
      length tags, the VRs whose explicit encoding has a 32-bit length (section 7.1.2 of DICOM
      PS3.5), and the transfer syntax UIDs. */
  datatype Tables = Tables(
    dictionary: map<string, DictionaryEntry>,
    groupLengthEntry: DictionaryEntry,
    extraLengthVRs: seq<string>,
    knownUIDs: KnownUIDs)

  /** A converted value. `Undefined` is what a VR without a working converter gives;
      `NotANumber` is the `NaN` of a number converter that decoded no value. */
  datatype Value =
    | Undefined
    | NotANumber
    | Numbers(numbers: Multi<Field>)
    | Strings(strings: Multi<string>)
    | Dates(dates: Multi<Option<DateParts>>)
    | Times(times: Multi<Option<TimeParts>>)
    | Number(number: Num)
    | Raw(bytes: seq<byte>)

  /** What the reader knows of an element before enrichment. The VR is empty when the
      stream does not carry one (the source passes `null` or `''`; both are falsy). */
  datatype TagValues = TagValues(vr: string, length: nat, rawValue: seq<byte>, value: Value)

  /** `tag.representations`: the numeric and hexadecimal forms of the tag. */
  datatype Representations = Representations(
    group: nat, element: nat, hexGroup: string, hexElement: string,
    tuple: seq<string>, str: string, name: string)

  /** An enriched element (`ITag`). */
  datatype Tag = Tag(
    vr: string, length: nat, rawValue: seq<byte>, value: Value,
    representations: Representations, representation: string,
    name: string, vm: string, keyword: string, retired: string)

  /** The failures that escape the decoder as JavaScript exceptions. */
  datatype Error =
    | MissingTagIdentity        // `getTagInfo` throws when group, element and VR are all falsy
    | UndefinedDictionaryEntry  // a field read from an absent dictionary entry (TypeError)
    | TruncatedUnpack           // destructuring the `undefined` that `unpack` gives for short input
    | EmptyKeyword              // `keyword[0].toLowerCase()` on an empty keyword
    | MissingDescriptor         // `.value` read from an absent pixel descriptor tag

  datatype Record = Record(key: string, tag: Tag)

  type Dataset = seq<Record>

  function Keys(ds: Dataset): set<string>
  {
    set i | 0 <= i < |ds| :: ds[i].key
  }

  predicate DistinctKeys(ds: Dataset)
  {
    forall i, j :: 0 <= i < j < |ds| ==> ds[i].key != ds[j].key
  }

  /** The position of the first record with the key, or `|ds|`. */
  function IndexOfKey(ds: Dataset, key: string): (i: nat)
    ensures i <= |ds|
    ensures i < |ds| ==> ds[i].key == key
    ensures forall j :: 0 <= j < i ==> ds[j].key != key
  {
    if ds == [] then 0
    else if ds[0].key == key then 0
    else 1 + IndexOfKey(ds[1..], key)
  }

  /** `object[key]`. */
  function Get(ds: Dataset, key: string): (r: Option<Tag>)
    ensures r.Some? <==> key in Keys(ds)
  {
    var i := IndexOfKey(ds, key);
    if i < |ds| then Some(ds[i].tag) else None
  }

  /** `object[key] = tag`: replaces the value of an existing key where it stands, or adds
      the key at the end. */
  function Put(ds: Dataset, key: string, tag: Tag): (r: Dataset)
    ensures Keys(r) == Keys(ds) + {key}
    ensures Get(r, key) == Some(tag)
    ensures forall k :: k != key ==> Get(r, k) == Get(ds, k)
    ensures DistinctKeys(ds) ==> DistinctKeys(r)
    ensures key !in Keys(ds) ==> r == ds + [Record(key, tag)]
    ensures key in Keys(ds) ==> |r| == |ds|
  {
    var i := IndexOfKey(ds, key);
    if i < |ds| then
      PutReplaces(ds, i, key, tag);
      ds[i := Record(key, tag)]
    else
      PutAppends(ds, key, tag);
      ds + [Record(key, tag)]
  }

  /** Assigning to the key whose first record is at `i` replaces that record and nothing
      else. */
  lemma PutReplaces(ds: Dataset, i: nat, key: string, tag: Tag)
    requires i == IndexOfKey(ds, key) && i < |ds|
    ensures var r := ds[i := Record(key, tag)];
      Keys(r) == Keys(ds) && key in Keys(ds) && IndexOfKey(r, key) == i &&
      (forall k :: k != key ==> Get(r, k) == Get(ds, k)) &&
      (DistinctKeys(ds) ==> DistinctKeys(r))
  {
    var r := ds[i := Record(key, tag)];
    assert forall k :: k != key ==> Get(r, k) == Get(ds, k) by {
      forall k | k != key ensures Get(r, k) == Get(ds, k) {
        IndexOfKeyUpdate(ds, i, key, tag, k);
      }
    }
    assert IndexOfKey(r, key) == i by {
      IndexOfKeyUpdate(ds, i, key, tag, key);
    }
    assert Keys(r) == Keys(ds) by {
      KeysUpdate(ds, i, Record(key, tag));
    }
    assert DistinctKeys(ds) ==> DistinctKeys(r) by {
      assert forall j :: 0 <= j < |r| ==> r[j].key == ds[j].key;
    }
  }

  /** Assigning to a key not present adds a record at the end and changes nothing else. */
  lemma PutAppends(ds: Dataset, key: string, tag: Tag)
    requires IndexOfKey(ds, key) == |ds|
    ensures var r := ds + [Record(key, tag)];
      Keys(r) == Keys(ds) + {key} && key !in Keys(ds) && IndexOfKey(r, key) == |ds| &&
      (forall k :: k != key ==> Get(r, k) == Get(ds, k)) &&
      (DistinctKeys(ds) ==> DistinctKeys(r))
  {
    var r := ds + [Record(key, tag)];
    assert forall k :: k != key ==> Get(r, k) == Get(ds, k) by {
      forall k | k != key ensures Get(r, k) == Get(ds, k) {
        IndexOfKeyAppend(ds, Record(key, tag), k);
      }
    }
    assert IndexOfKey(r, key) == |ds| by {
      IndexOfKeyAppend(ds, Record(key, tag), key);
    }
    assert Keys(r) == Keys(ds) + {key} by {
      KeysAppend(ds, Record(key, tag));
    }
    assert DistinctKeys(ds) ==> DistinctKeys(r) by {
      if DistinctKeys(ds) {
        forall j | 0 <= j < |ds| ensures r[j].key != key {
          assert r[j] == ds[j];
        }
      }
    }
  }

  /** Replacing the record of a key, keeping the key, leaves every first position as it was. */
  lemma {:induction false} IndexOfKeyUpdate(ds: Dataset, i: nat, key: string, tag: Tag, k: string)
    requires i < |ds| && ds[i].key == key
    ensures IndexOfKey(ds[i := Record(key, tag)], k) == IndexOfKey(ds, k)
  {
    var r := ds[i := Record(key, tag)];
    if i > 0 && ds[0].key != k {
      assert r[1..] == ds[1..][i - 1 := Record(key, tag)];
      IndexOfKeyUpdate(ds[1..], i - 1, key, tag, k);
    }
  }

  /** Adding a record at the end does not move the first position of a key already present;
      for a key not present it finds the new record. */
  lemma {:induction false} IndexOfKeyAppend(ds: Dataset, rec: Record, k: string)
    ensures IndexOfKey(ds + [rec], k) ==
      if IndexOfKey(ds, k) < |ds| then IndexOfKey(ds, k) else if rec.key == k then |ds| else |ds| + 1
  {
    if ds != [] && ds[0].key != k {
      assert (ds + [rec])[1..] == ds[1..] + [rec];
      IndexOfKeyAppend(ds[1..], rec, k);
    }
  }

  lemma KeysAppend(ds: Dataset, rec: Record)
    ensures Keys(ds + [rec]) == Keys(ds) + {rec.key}
  {
    var r := ds + [rec];
    forall k | k in Keys(r) ensures k in Keys(ds) + {rec.key} {
      var i :| 0 <= i < |r| && r[i].key == k;
      if i < |ds| {
        assert ds[i].key == k;
      }
    }
    forall k | k in Keys(ds) + {rec.key} ensures k in Keys(r) {
      if k == rec.key {
        assert r[|ds|].key == k;
      } else {
        var i :| 0 <= i < |ds| && ds[i].key == k;
        assert r[i].key == k;
      }
    }
  }

  lemma KeysUpdate(ds: Dataset, i: nat, rec: Record)
    requires i < |ds| && ds[i].key == rec.key
    ensures Keys(ds[i := rec]) == Keys(ds)
  {
    var r := ds[i := rec];
    forall k | k in Keys(r) ensures k in Keys(ds) {
      var j :| 0 <= j < |r| && r[j].key == k;
      assert ds[j].key == k;
    }
    forall k | k in Keys(ds) ensures k in Keys(r) {
      var j :| 0 <= j < |ds| && ds[j].key == k;
      assert r[j].key == k;
    }
  }

  lemma KeysCons(ds: Dataset)
    requires ds != []
    ensures Keys(ds) == {ds[0].key} + Keys(ds[1..])
  {
    forall k | k in Keys(ds) ensures k in {ds[0].key} + Keys(ds[1..]) {
      var i :| 0 <= i < |ds| && ds[i].key == k;
      if i > 0 {
        assert ds[1..][i - 1].key == k;
      }
    }
  }

  /** `{...a, ...b}`: the records of `b` assigned one after the other onto `a`. */
  function Merge(a: Dataset, b: Dataset): (r: Dataset)
    ensures Keys(r) == Keys(a) + Keys(b)
    ensures DistinctKeys(a) ==> DistinctKeys(r)
    decreases |b|
  {
    if b == [] then a
    else
      KeysCons(b);
      Merge(Put(a, b[0].key, b[0].tag), b[1..])
  }

  /** In a spread, a key of the later object wins; the other keys keep their values. */
  lemma {:induction false} MergeGet(a: Dataset, b: Dataset, k: string)
    requires DistinctKeys(b)
    ensures Get(Merge(a, b), k) == if k in Keys(b) then Get(b, k) else Get(a, k)
    decreases |b|
  {
    if b != [] {
      var a' := Put(a, b[0].key, b[0].tag);
      KeysCons(b);
      assert DistinctKeys(b[1..]);
      MergeGet(a', b[1..], k);
      if k == b[0].key {
        assert k !in Keys(b[1..]);
      } else if k in Keys(b[1..]) {
        assert IndexOfKey(b, k) == 1 + IndexOfKey(b[1..], k);
      }
    }
  }

  /** The tags of a dataset, in key order (what lodash iterates over). */
  function Tags(ds: Dataset): (ts: seq<Tag>)
    ensures |ts| == |ds|
    ensures forall i :: 0 <= i < |ds| ==> ts[i] == ds[i].tag
  {
    seq(|ds|, i requires 0 <= i < |ds| => ds[i].tag)
  }
}
