/** The part of the `bufferpack` library the decoder calls: `calcLength(format)` and
    `unpack(format, bytes, position)`.

    A format is a byte-order mark followed by items, each an optional decimal count and a
    one-letter code. `<` is little-endian and any other mark big-endian. Numeric codes decode
    `count` values of their width; `s` decodes one string of `count` bytes. When the bytes run
    out, `unpack` returns `undefined`, modelled as `None`. */
module Bufferpack {
  import opened Wrappers
  import opened Seqs
  import opened Text
  import opened Bytes

  datatype Code = UnsignedCode(width: nat) | SignedCode(width: nat) | FloatCode(width: nat) | CharsCode

  datatype Item = Item(count: nat, code: Code)

  datatype Format = Format(littleEndian: bool, items: seq<Item>)

  /** A decoded value. Floating-point values keep their bytes: their arithmetic is not modelled. */
  datatype Field = UInt(u: nat) | SInt(i: int) | FloatBytes(raw: seq<byte>) | Str(s: string)

  function CodeOf(c: char): Option<Code>
  {
    match c
    case 'B' => Some(UnsignedCode(1))
    case 'b' => Some(SignedCode(1))
    case 'H' => Some(UnsignedCode(2))
    case 'h' => Some(SignedCode(2))
    case 'I' => Some(UnsignedCode(4))
    case 'L' => Some(UnsignedCode(4))
    case 'i' => Some(SignedCode(4))
    case 'l' => Some(SignedCode(4))
    case 'Q' => Some(UnsignedCode(8))
    case 'q' => Some(SignedCode(8))
    case 'f' => Some(FloatCode(4))
    case 'd' => Some(FloatCode(8))
    case 's' => Some(CharsCode)
    case _ => None
  }

  /** The bytes one unit of the code occupies. */
  function Size(c: Code): nat
  {
    if c.CharsCode? then 1 else c.width
  }

  function ParseItems(s: string): Option<seq<Item>>
    decreases |s|
  {
    if s == [] then Some([])
    else
      var n := DigitRun(s);
      if n == |s| then None
      else
        match CodeOf(s[n])
        case None => None
        case Some(code) =>
          assert AllDigitsOf(s[..n], 10);
          var count := if n == 0 then 1 else ParseNat(s[..n], 10);
          match ParseItems(s[n + 1..])
          case None => None
          case Some(rest) => Some([Item(count, code)] + rest)
  }

  function ParseFormat(s: string): Option<Format>
  {
    if s == [] then None
    else if s[0] == '<' || s[0] == '>' || s[0] == '!' || s[0] == '=' then
      match ParseItems(s[1..])
      case None => None
      case Some(items) => Some(Format(s[0] == '<', items))
    else
      match ParseItems(s)
      case None => None
      case Some(items) => Some(Format(false, items))
  }

  function ItemLength(it: Item): nat
  {
    it.count * Size(it.code)
  }

  function ItemsLength(items: seq<Item>): nat
  {
    if items == [] then 0 else ItemLength(items[0]) + ItemsLength(items[1..])
  }

  /** `calcLength(format)`: the number of bytes the format describes. */
  function CalcLength(s: string): nat
  {
    match ParseFormat(s)
    case None => 0
    case Some(f) => ItemsLength(f.items)
  }

  function DecodeOne(code: Code, b: seq<byte>, littleEndian: bool): Field
  {
    match code
    case UnsignedCode(_) => UInt(Unsigned(b, littleEndian))
    case SignedCode(_) => SInt(Signed(b, littleEndian))
    case FloatCode(_) => FloatBytes(b)
    case CharsCode => Str(ArrayToText(b))
  }

  /** `count` consecutive values of `w` bytes each, each decoded by `f`. */
  function Run<T>(f: seq<byte> -> T, w: nat, count: nat, b: seq<byte>): (r: seq<T>)
    requires |b| == count * w
    ensures |r| == count
    decreases count
  {
    if count == 0 then []
    else
      MulSucc(count - 1, w);
      [f(b[..w])] + Run(f, w, count - 1, b[w..])
  }

  /** `count` consecutive values of a numeric code. */
  function DecodeRun(code: Code, count: nat, b: seq<byte>, littleEndian: bool): (r: seq<Field>)
    requires !code.CharsCode? && |b| == count * code.width
    ensures |r| == count
  {
    Run(x => DecodeOne(code, x, littleEndian), code.width, count, b)
  }

  /** The values one item decodes from exactly its bytes: one string for `s`, `count`
      numbers otherwise. */
  function ItemFields(it: Item, littleEndian: bool, b: seq<byte>): seq<Field>
    requires |b| == ItemLength(it)
  {
    if it.code.CharsCode? then [Str(ArrayToText(b))]
    else DecodeRun(it.code, it.count, b, littleEndian)
  }

  function UnpackItems(items: seq<Item>, littleEndian: bool, b: seq<byte>, p: nat): Option<seq<Field>>
    decreases |items|
  {
    if items == [] then Some([])
    else
      var need := ItemLength(items[0]);
      if p + need > |b| then None
      else
        match UnpackItems(items[1..], littleEndian, b, p + need)
        case None => None
        case Some(rest) => Some(ItemFields(items[0], littleEndian, b[p..p + need]) + rest)
  }

  /** `unpack(format, bytes, position)`. */
  function Unpack(s: string, b: seq<byte>, p: nat): Option<seq<Field>>
  {
    match ParseFormat(s)
    case None => None
    case Some(f) => UnpackItems(f.items, f.littleEndian, b, p)
  }

  /** `unpack` succeeds exactly when the bytes from the position cover the format. */
  lemma {:induction false} UnpackItemsDefined(items: seq<Item>, littleEndian: bool, b: seq<byte>, p: nat)
    ensures UnpackItems(items, littleEndian, b, p).Some? <==> items == [] || p + ItemsLength(items) <= |b|
    decreases |items|
  {
    if items != [] {
      var need := ItemLength(items[0]);
      assert ItemsLength(items) == need + ItemsLength(items[1..]);
      UnpackItemsDefined(items[1..], littleEndian, b, p + need);
    }
  }

  /** Unpacking an item ahead of more items: its values, then theirs. */
  lemma UnpackCons(it: Item, rest: seq<Item>, littleEndian: bool, b: seq<byte>, p: nat)
    requires p + ItemLength(it) <= |b|
    ensures UnpackItems([it] + rest, littleEndian, b, p) ==
      match UnpackItems(rest, littleEndian, b, p + ItemLength(it))
      case None => None
      case Some(fs) => Some(ItemFields(it, littleEndian, b[p..p + ItemLength(it)]) + fs)
  {
    assert ([it] + rest)[0] == it && ([it] + rest)[1..] == rest;
  }

  /** One unit of a numeric code decodes to one value. */
  lemma UnitFields(code: Code, littleEndian: bool, b: seq<byte>)
    requires !code.CharsCode? && |b| == code.width
    ensures ItemLength(Item(1, code)) == code.width
    ensures ItemFields(Item(1, code), littleEndian, b) == [DecodeOne(code, b, littleEndian)]
  {
    var f := x => DecodeOne(code, x, littleEndian);
    assert b[..code.width] == b && b[code.width..] == [];
    assert Run(f, code.width, 1, b) == [f(b)] + Run(f, code.width, 0, []);
  }

  /** `s` with a count decodes one string of that many characters. */
  lemma CharsFields(n: nat, littleEndian: bool, b: seq<byte>)
    requires |b| == n
    ensures ItemLength(Item(n, CharsCode)) == n
    ensures ItemFields(Item(n, CharsCode), littleEndian, b) == [Str(ArrayToText(b))]
  {
  }

  lemma MulSucc(i: nat, w: nat)
    ensures (i + 1) * w == i * w + w && w * (i + 1) == i * w + w
  {
  }

  // ----- the formats the decoder builds -----

  /** `<count><code>` with the count written by `toString()`. */
  lemma CountedItem(k: nat, c: char, code: Code)
    requires CodeOf(c) == Some(code)
    ensures ParseItems(NatToString(k, 10) + [c]) == Some([Item(k, code)])
  {
    var digits := NatToString(k, 10);
    var s := digits + [c];
    DigitRunOf(digits, [c]);
    assert s[|digits|] == c;
    assert s[..|digits|] == digits;
    assert s[|digits| + 1..] == [];
    ParseNatToString(k, 10);
    assert ParseItems([]) == Some([]);
    assert DigitRun(s) == |digits| >= 1;
    assert CodeOf(s[|digits|]) == Some(code);
    assert ParseNat(s[..|digits|], 10) == k;
    assert ParseItems(s[|digits| + 1..]) == Some([]);
    assert [Item(k, code)] + [] == [Item(k, code)];
  }

  /** A code letter with no count stands for one unit. */
  lemma SingleItem(c: char, rest: string, code: Code)
    requires CodeOf(c) == Some(code)
    ensures ParseItems([c] + rest) == match ParseItems(rest)
      case None => None
      case Some(items) => Some([Item(1, code)] + items)
  {
    var s := [c] + rest;
    assert s[0] == c && s[1..] == rest;
    assert !IsDecimalDigit(c) by {
      assert CodeOf(c).Some?;
    }
    assert DigitRun(s) == 0;
  }

  /** The format `<mark><count><code>` that the number converter builds. */
  lemma CountedFormat(littleEndian: bool, k: nat, c: char, code: Code)
    requires CodeOf(c) == Some(code)
    ensures ParseFormat([if littleEndian then '<' else '>'] + NatToString(k, 10) + [c])
         == Some(Format(littleEndian, [Item(k, code)]))
  {
    var m := if littleEndian then '<' else '>';
    var s := [m] + NatToString(k, 10) + [c];
    assert s[1..] == NatToString(k, 10) + [c];
    CountedItem(k, c, code);
  }

  /** Value `i` of a run comes from the `w` bytes at offset `lo == i * w`. */
  lemma {:induction false} RunAt<T>(f: seq<byte> -> T, w: nat, count: nat, b: seq<byte>, i: nat, lo: nat)
    requires |b| == count * w && i < count && lo == i * w
    ensures lo + w <= |b|
    ensures Run(f, w, count, b)[i] == f(b[lo..lo + w])
    decreases count
  {
    OffsetStep(i, count, w, lo);
    MulSucc(count - 1, w);
    var t := b[w..];
    assert Run(f, w, count, b) == [f(b[..w])] + Run(f, w, count - 1, t);
    if i == 0 {
      assert b[lo..lo + w] == b[..w];
    } else {
      RunAt(f, w, count - 1, t, i - 1, lo - w);
      SliceOfSuffix(b, w, lo, lo + w);
    }
  }

  /** Decoding a run of values reads consecutive slices of the code's width. */
  lemma DecodeRunAt(code: Code, count: nat, b: seq<byte>, littleEndian: bool, i: nat, lo: nat)
    requires !code.CharsCode? && |b| == count * code.width && i < count && lo == i * code.width
    ensures lo + code.width <= |b|
    ensures DecodeRun(code, count, b, littleEndian)[i] == DecodeOne(code, b[lo..lo + code.width], littleEndian)
  {
    RunAt(x => DecodeOne(code, x, littleEndian), code.width, count, b, i, lo);
  }

  lemma OffsetStep(i: nat, count: nat, w: nat, lo: nat)
    requires i < count && lo == i * w
    ensures lo + w <= count * w
    ensures i > 0 ==> w <= lo && lo - w == (i - 1) * w
  {
    MulSucc(i, w);
    MulMono(w, i + 1, count);
    if i > 0 {
      MulSucc(i - 1, w);
    }
  }

}
