/** Multi-valued text: DICOM separates the values of a text element with a backslash
    (section 6.4 of DICOM PS3.5). `getMultiString` gives a bare string when there is one value
    and an array when there are several; `handleMultiString` applies a per-value handler to
    either shape. */
module MultiString {
  import opened Text

  const Backslash: char := '\\'

  /** A bare value, or an array of at least two values. */
  datatype Multi<+T> = One(value: T) | Many(values: seq<T>)

  /** The values, in order, whatever the shape. */
  function Values<T>(m: Multi<T>): seq<T>
  {
    match m
    case One(v) => [v]
    case Many(vs) => vs
  }

  /** `getMultiString(value)`: the pieces between backslashes; a single piece is returned bare. */
  function GetMultiString(value: string): (r: Multi<string>)
    ensures r.One? <==> Backslash !in value
    ensures |Values(r)| == multiset(value)[Backslash] + 1
    ensures Join(Values(r), Backslash) == value
    ensures forall i :: 0 <= i < |Values(r)| ==> Backslash !in Values(r)[i]
    ensures r.Many? ==> |r.values| >= 2
  {
    var parts := Split(value, Backslash);
    if |parts| == 1 then One(parts[0]) else Many(parts)
  }

  /** Text without a backslash is returned as it is. */
  lemma GetMultiStringSingle(value: string)
    requires Backslash !in value
    ensures GetMultiString(value) == One(value)
  {
    assert Join(Values(GetMultiString(value)), Backslash) == value;
  }

  /** Values none of which holds a backslash are recovered from their backslash-joined text. */
  lemma GetMultiStringJoin(values: seq<string>)
    requires |values| >= 1
    requires forall i :: 0 <= i < |values| ==> Backslash !in values[i]
    ensures Values(GetMultiString(Join(values, Backslash))) == values
  {
    SplitJoin(values, Backslash);
  }

  /** `handleMultiString(value, callback)`: the callback applied once to a bare string, or to
      each element of an array. */
  function HandleMultiString<T>(value: Multi<string>, callback: string -> T): (r: Multi<T>)
    ensures r.One? <==> value.One?
    ensures |Values(r)| == |Values(value)|
    ensures forall i :: 0 <= i < |Values(r)| ==> Values(r)[i] == callback(Values(value)[i])
  {
    match value
    case One(s) => One(callback(s))
    case Many(vs) => Many(seq(|vs|, i requires 0 <= i < |vs| => callback(vs[i])))
  }
}
