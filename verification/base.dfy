/** Basic value types shared by the decoder and the server model. */
module Base {

  /** One octet of the TCP stream. */
  type Byte = b: int | 0 <= b < 256

  /** A byte string. Wire strings are kept as raw bytes: the UTF-8 text decoding done by the
      .NET reader is not modelled, only the length prefix that frames them. */
  type Bytes = seq<Byte>

  const TwoTo16: int := 0x1_0000
  const TwoTo31: int := 0x8000_0000
  const TwoTo32: int := 0x1_0000_0000

  /** A value of .NET `Int32`. */
  predicate IsInt32(v: int) {
    -TwoTo31 <= v < TwoTo31
  }

  /** `UInt32` addition, which wraps around at 2^32. */
  function AddU32(a: nat, b: nat): (r: nat)
    ensures r < TwoTo32
  {
    (a + b) % TwoTo32
  }

  /** A `UInt32` sum that does not overflow is the plain sum. */
  lemma AddU32NoWrap(a: nat, b: nat)
    requires a + b < TwoTo32
    ensures AddU32(a, b) == a + b
  {
  }

  /** Slicing after dropping the first element. */
  lemma SliceTail<T>(s: seq<T>, n: nat)
    requires n < |s|
    ensures s[..n + 1] == [s[0]] + s[1..][..n] && s[n + 1..] == s[1..][n..]
  {
  }

  /** Slicing after dropping the last element. */
  lemma SliceInit<T>(s: seq<T>, n: nat)
    requires n < |s|
    ensures s[..|s| - 1][..n] == s[..n] && s[n..] == s[..|s| - 1][n..] + [s[|s| - 1]]
  {
  }

  /** Slicing a suffix. */
  lemma SliceOfSuffix<T>(s: seq<T>, i: nat, m: nat)
    requires i + m <= |s|
    ensures s[i..][..m] == s[i..i + m] && s[i..][m..] == s[i + m..]
  {
  }

  /** A sequence that is `head` then `tail ++ after`, where `head ++ tail` is `before`, is
      `before ++ after`. */
  lemma AppendStep<T>(whole: seq<T>, head: seq<T>, tail: seq<T>, tailAll: seq<T>, before: seq<T>, after: seq<T>)
    requires whole == head + tailAll && tailAll == tail + after && before == head + tail
    ensures whole == before + after
  {
  }

  /** Concatenation of four sequences, regrouped to the right. */
  lemma AppendAssoc4<T>(a: seq<T>, b: seq<T>, c: seq<T>, d: seq<T>)
    ensures a + b + c + d == a + (b + (c + d))
  {
  }

  /** Concatenation of five sequences, regrouped after the second. */
  lemma Regroup<T>(a: seq<T>, b: seq<T>, c: seq<T>, d: seq<T>, e: seq<T>)
    ensures a + b + c + d + e == (a + b) + (c + d + e)
  {
  }

  /** Dropping the left part of a concatenation leaves the right part. */
  lemma DropPrefix<T>(a: seq<T>, b: seq<T>)
    ensures (a + b)[|a|..] == b
  {
  }

  /** A suffix of a suffix is a suffix. */
  lemma SuffixOfSuffix<T>(s: seq<T>, a: seq<T>, b: seq<T>)
    requires |a| <= |s| && s[|s| - |a|..] == a
    requires |b| <= |a| && a[|a| - |b|..] == b
    ensures s[|s| - |b|..] == b
  {
    assert s[|s| - |b|..] == s[|s| - |a|..][|a| - |b|..];
  }

  /** The head and the tail of a concatenation whose left part is not empty. */
  lemma ConsAppend<T>(xs: seq<T>, ys: seq<T>)
    requires xs != []
    ensures (xs + ys)[0] == xs[0] && (xs + ys)[1..] == xs[1..] + ys
  {
  }

  /** A suffix of a sequence is its first element followed by the next suffix. */
  lemma SliceCons<T>(xs: seq<T>, k: nat)
    requires k < |xs|
    ensures xs[k..] == [xs[k]] + xs[k + 1..]
  {
  }

  /** A nullable reference or a missing search hit. */
  datatype Option<+T> = None | Some(value: T)
}
