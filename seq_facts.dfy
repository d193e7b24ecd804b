/**
 * Facts about slicing and concatenating sequences, stated once so that the
 * proofs about the text transformations can use them without unfolding the
 * transformations themselves.
 */
module SeqFacts {

  /** Cutting the first element off, then `n - 1` more, is cutting `n`. */
  lemma ConsSlices<T>(s: seq<T>, n: nat, rest: seq<T>)
    requires 0 < n <= |s|
    ensures [s[0]] + (s[1..][..n - 1] + rest) == s[..n] + rest
    ensures s[1..][n - 1..] == s[n..]
  {
    assert [s[0]] + s[1..][..n - 1] == s[..n];
  }

  /** An empty prefix adds nothing. */
  lemma EmptyPrefix<T>(s: seq<T>, rest: seq<T>)
    ensures s[..0] + rest == rest && s[0..] == s
  {
  }

  /** Slices of a suffix are slices of the whole. */
  lemma SuffixSlices<T>(s: seq<T>, n: nat, k: nat)
    requires n + k <= |s|
    ensures s[n..][..k] == s[n..n + k] && s[n..][k..] == s[n + k..]
  {
  }

  /** Slices of a suffix, up to a position of the whole, are slices of the whole. */
  lemma SuffixSlicesTo<T>(s: seq<T>, n: nat, m: nat)
    requires n <= m <= |s|
    ensures s[n..][..m - n] == s[n..m] && s[n..][m - n..] == s[m..]
  {
  }

  /** The parts of a sequence built from a head and a tail. */
  lemma HeadTail<T>(c: T, r: seq<T>)
    ensures ([c] + r)[0] == c && ([c] + r)[1..] == r
  {
  }

  /** The two halves of a concatenation. */
  lemma AppendSlices<T>(a: seq<T>, b: seq<T>)
    ensures (a + b)[..|a|] == a && (a + b)[|a|..] == b
  {
  }

  /** The parts of a sequence built from three pieces. */
  lemma ThreeParts<T>(a: seq<T>, b: seq<T>, c: seq<T>, x: seq<T>)
    requires x == a + (b + c)
    ensures x[..|a|] == a && x[|a|..] == b + c && x[|a| + |b|..] == c
  {
    assert x[|a|..] == b + c;
    assert (b + c)[|b|..] == c;
  }

  /** A slice holding two pieces splits into a slice for each. */
  lemma SplitSlice<T>(t: seq<T>, i: nat, x: seq<T>, y: seq<T>)
    requires i + |x| + |y| <= |t| && t[i..i + |x| + |y|] == x + y
    ensures t[i..i + |x|] == x && t[i + |x|..i + |x| + |y|] == y
  {
    assert t[i..i + |x|] == t[i..i + |x| + |y|][..|x|];
    assert t[i + |x|..i + |x| + |y|] == t[i..i + |x| + |y|][|x|..];
  }

  /** Two adjacent slices make the slice that spans them. */
  lemma JoinSlices<T>(t: seq<T>, i: nat, j: nat, k: nat)
    requires i <= j <= k <= |t|
    ensures t[i..k] == t[i..j] + t[j..k]
  {
  }

  /** A prefix of `a` is a prefix of `a` followed by anything. */
  lemma PrefixOfAppend<T>(a: seq<T>, b: seq<T>, p: seq<T>)
    requires |p| <= |a| && a[..|p|] == p
    ensures |p| <= |a + b| && (a + b)[..|p|] == p
  {
    assert (a + b)[..|p|] == a[..|p|];
  }

  /** A prefix one longer is the prefix followed by the next element. */
  lemma PrefixSnoc<T>(s: seq<T>, i: nat)
    requires i < |s|
    ensures s[..i + 1] == s[..i] + [s[i]]
  {
  }

  /** A sequence is its prefix `p` followed by the rest. */
  lemma PrefixRest<T>(s: seq<T>, p: seq<T>)
    requires |p| <= |s| && s[..|p|] == p
    ensures s == p + s[|p|..]
  {
    assert s == s[..|p|] + s[|p|..];
  }

  /** Concatenation is associative. */
  lemma Assoc<T>(a: seq<T>, b: seq<T>, c: seq<T>)
    ensures (a + b) + c == a + (b + c)
  {
  }

  /** A slice of a slice is a slice. */
  lemma SliceOfSlice<T>(t: seq<T>, i: nat, j: nat, a: nat, b: nat)
    requires i <= j <= |t| && a <= b <= j - i
    ensures t[i..j][a..b] == t[i + a..i + b]
  {
    forall k | 0 <= k < b - a
      ensures t[i..j][a..b][k] == t[i + a..i + b][k]
    {
    }
  }

  /** The middle part of a concatenation is the slice where it stands. */
  lemma SliceOfConcat<T>(a: seq<T>, x: seq<T>, b: seq<T>)
    ensures (a + x + b)[|a|..|a| + |x|] == x
  {
  }
}
