/** Sequence helpers with the semantics of the lodash functions the decoder uses
    (`chunk`, `takeRight`, `reverse`, `join` of chunks, `min`, `max`). */
module Seqs {

  function Min(a: int, b: int): int { if a <= b then a else b }

  function Max(a: int, b: int): int { if a >= b then a else b }

  /** Concatenation of all parts, in order (`join(parts, '')` on strings). */
  function Flatten<T>(parts: seq<seq<T>>): seq<T>
  {
    if parts == [] then [] else parts[0] + Flatten(parts[1..])
  }

  lemma {:induction false} FlattenAppend<T>(a: seq<seq<T>>, b: seq<seq<T>>)
    ensures Flatten(a + b) == Flatten(a) + Flatten(b)
  {
    if a == [] {
      assert a + b == b;
    } else {
      assert (a + b)[1..] == a[1..] + b;
      FlattenAppend(a[1..], b);
    }
  }

  /** lodash `map` with a function defined everywhere: `f` of each element, in order. */
  function Map<T, U>(f: T -> U, s: seq<T>): (r: seq<U>)
    ensures |r| == |s|
    ensures forall i :: 0 <= i < |s| ==> r[i] == f(s[i])
  {
    seq(|s|, i requires 0 <= i < |s| => f(s[i]))
  }

  lemma MapAppend<T, U>(f: T -> U, a: seq<T>, b: seq<T>)
    ensures Map(f, a + b) == Map(f, a) + Map(f, b)
  {
    var r, g := Map(f, a + b), Map(f, a) + Map(f, b);
    forall i | 0 <= i < |r| ensures r[i] == g[i] {
      if i < |a| {
        assert (a + b)[i] == a[i];
      } else {
        assert (a + b)[i] == b[i - |a|];
      }
    }
  }

  /** lodash `reverse`. */
  function Reverse<T>(s: seq<T>): seq<T>
  {
    seq(|s|, i requires 0 <= i < |s| => s[|s| - 1 - i])
  }

  lemma MapReverse<T, U>(f: T -> U, s: seq<T>)
    ensures Reverse(Map(f, s)) == Map(f, Reverse(s))
  {
  }

  lemma ReverseReverse<T>(s: seq<T>)
    ensures Reverse(Reverse(s)) == s
  {
  }

  /** Reversing a sequence with one more element at the end puts that element first. */
  lemma ReverseSnoc<T>(s: seq<T>, x: T)
    ensures Reverse(s + [x]) == [x] + Reverse(s)
    ensures Reverse(s + [x])[1..] == Reverse(s)
  {
  }

  lemma {:induction false} FlattenReverseLength<T>(parts: seq<seq<T>>)
    ensures |Flatten(Reverse(parts))| == |Flatten(parts)|
  {
    if parts != [] {
      assert Reverse(parts) == Reverse(parts[1..]) + [parts[0]];
      FlattenAppend(Reverse(parts[1..]), [parts[0]]);
      assert Flatten([parts[0]]) == parts[0];
      FlattenReverseLength(parts[1..]);
    }
  }

  /** lodash `chunk(s, size)`: consecutive pieces of `size` elements, the last one possibly
      shorter; no pieces at all when `size` is below 1. */
  function Chunk<T>(s: seq<T>, size: nat): (r: seq<seq<T>>)
    ensures size > 0 ==> Flatten(r) == s
    ensures forall i :: 0 <= i < |r| ==> 0 < |r[i]| <= size
    ensures forall i :: 0 <= i < |r| - 1 ==> |r[i]| == size
    decreases |s|
  {
    if size == 0 || s == [] then []
    else if |s| <= size then [s]
    else
      assert s == s[..size] + s[size..];
      [s[..size]] + Chunk(s[size..], size)
  }

  /** The number of chunks is the length divided by the chunk size, rounded up. */
  lemma {:induction false} ChunkCount<T>(s: seq<T>, size: nat)
    requires size > 0
    ensures |Chunk(s, size)| == (|s| + size - 1) / size
    decreases |s|
  {
    if s == [] {
      CeilDivSmall(0, size);
    } else if |s| <= size {
      CeilDivSmall(|s|, size);
    } else {
      ChunkCount(s[size..], size);
      CeilDivStep(|s|, size);
    }
  }

  lemma CeilDivSmall(n: nat, size: nat)
    requires 0 < size && n <= size
    ensures (n + size - 1) / size == if n == 0 then 0 else 1
  {
    if n == 0 {
      DivUnique(size - 1, size, 0, size - 1);
    } else {
      DivUnique(n + size - 1, size, 1, n - 1);
    }
  }

  lemma CeilDivStep(n: nat, size: nat)
    requires 0 < size < n
    ensures (n + size - 1) / size == (n - size + size - 1) / size + 1
  {
    var q := (n - 1) / size;
    var r := (n - 1) % size;
    DivUnique(n + size - 1, size, q + 1, r) by {
      assert n - 1 == q * size + r;
      assert (q + 1) * size == q * size + size;
    }
  }

  lemma {:induction false} MulAtLeast(a: int, k: int)
    requires a >= 1 && k > 0
    ensures a * k >= k
  {
    if a > 1 {
      MulAtLeast(a - 1, k);
      assert a * k == (a - 1) * k + k;
    }
  }

  /** Euclidean division is determined by quotient and remainder. */
  lemma DivUnique(x: int, k: int, q: int, r: int)
    requires k > 0 && 0 <= r < k && x == q * k + r
    ensures x / k == q
  {
    var q' := x / k;
    var r' := x % k;
    assert x == q' * k + r';
    assert (q' - q) * k == r - r' by {
      assert q' * k - q * k == (q' - q) * k;
    }
    if q' > q {
      MulAtLeast(q' - q, k);
    } else if q' < q {
      MulAtLeast(q - q', k);
    }
  }

  /** When every part has exactly `size` elements, chunking their concatenation gives the
      parts back. */
  lemma {:induction false} ChunkFlatten<T>(parts: seq<seq<T>>, size: nat)
    requires size > 0
    requires forall i :: 0 <= i < |parts| ==> |parts[i]| == size
    ensures Chunk(Flatten(parts), size) == parts
  {
    if parts != [] {
      var s := Flatten(parts);
      assert s == parts[0] + Flatten(parts[1..]);
      ChunkFlatten(parts[1..], size);
      if |s| <= size {
        assert s == parts[0];
        assert [s] == parts;
      } else {
        assert s[..size] == parts[0];
        assert s[size..] == Flatten(parts[1..]);
      }
    }
  }

  /** When the length is a multiple of the size, every chunk has exactly that size. */
  lemma {:induction false} ChunkExact<T>(s: seq<T>, size: nat, k: nat)
    requires size > 0 && |s| == k * size
    ensures forall i :: 0 <= i < |Chunk(s, size)| ==> |Chunk(s, size)[i]| == size
    ensures |Chunk(s, size)| == k
    decreases k
  {
    if k == 0 {
      assert s == [];
    } else {
      PredMul(k, size);
      if k == 1 {
        assert Chunk(s, size) == [s];
      } else {
        var t := s[size..];
        ChunkExact(t, size, k - 1);
        assert Chunk(s, size) == [s[..size]] + Chunk(t, size);
      }
    }
  }

  lemma PredMul(k: nat, size: nat)
    requires k > 0
    ensures k * size == (k - 1) * size + size
    ensures k == 1 ==> k * size == size
    ensures k > 1 ==> k * size > size || size == 0
  {
  }

  /** A slice of a suffix is a slice of the whole, shifted by the suffix's start. */
  lemma SliceOfSuffix<T>(s: seq<T>, k: nat, lo: nat, hi: nat)
    requires k <= lo <= hi <= |s|
    ensures s[k..][lo - k..hi - k] == s[lo..hi]
  {
  }

  /** lodash `takeRight(s, n)`: the last `n` elements, or all of them. */
  function TakeRight<T>(s: seq<T>, n: nat): (r: seq<T>)
    ensures |r| == Min(n, |s|)
    ensures s == s[..|s| - |r|] + r
  {
    s[|s| - Min(n, |s|)..]
  }
}
