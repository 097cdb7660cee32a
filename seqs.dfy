/**
 * Small facts about sequences, each stated over plain variables so that the
 * proofs that use them need not rediscover them.
 */
module Seqs {

  lemma Assoc<T>(a: seq<T>, b: seq<T>, c: seq<T>)
    ensures a + b + c == a + (b + c)
  {
  }

  lemma Regroup<T>(w: seq<T>, x: seq<T>, y: seq<T>, z: seq<T>)
    ensures w + x + y + z == w + (x + y + z)
  {
  }

  lemma TakeDrop<T>(s: seq<T>, k: nat)
    requires k <= |s|
    ensures s[..k] + s[k..] == s
  {
  }

  /** A sequence is its first element followed by the rest. */
  lemma ConsSplit<T>(s: seq<T>)
    requires s != []
    ensures s == [s[0]] + s[1..]
  {
  }

  /** A sequence split around its element at `j`. */
  lemma SplitAt<T>(s: seq<T>, j: nat)
    requires j < |s|
    ensures s == s[..j] + ([s[j]] + s[j + 1..])
  {
  }

  /** A sequence is everything but its last element, followed by the last element. */
  lemma SnocSplit<T>(s: seq<T>)
    requires s != []
    ensures s == s[..|s| - 1] + [s[|s| - 1]]
  {
  }

  /** Dropping the last element of a concatenation drops it from the second part. */
  lemma DropLast<T>(a: seq<T>, b: seq<T>)
    requires b != []
    ensures (a + b)[..|a + b| - 1] == a + b[..|b| - 1]
    ensures (a + b)[|a + b| - 1] == b[|b| - 1]
  {
  }

  /** Indexing past the first part of a concatenation indexes the second part. */
  lemma IndexAfter<T>(a: seq<T>, b: seq<T>, j: nat)
    requires j < |b|
    ensures |a| + j < |a + b| && (a + b)[|a| + j] == b[j]
  {
  }

  /** Slicing a concatenation at a point inside its first part. */
  lemma AppendSlices<T>(p: seq<T>, y: seq<T>, k: nat)
    requires k <= |p|
    ensures (p + y)[..k] == p[..k] && (p + y)[k..] == p[k..] + y
  {
  }

  /** Equal suffixes from `i` agree at `i` and from `i + 1`. */
  lemma SuffixStep<T>(a: seq<T>, b: seq<T>, i: nat)
    requires i < |a| && i < |b| && a[i..] == b[i..]
    ensures a[i] == b[i] && a[i + 1..] == b[i + 1..]
  {
    assert a[i] == a[i..][0] && b[i] == b[i..][0];
    assert a[i + 1..] == a[i..][1..] && b[i + 1..] == b[i..][1..];
  }

  /** The prefix of length `i` of a prefix of length `i + 1`, and its last element. */
  lemma PrefixStep<T>(s: seq<T>, i: nat)
    requires i < |s|
    ensures s[..i + 1][..i] == s[..i] && s[..i + 1][i] == s[i]
  {
  }

  /** The multiset of a sequence with one element taken out of the middle. */
  lemma MultisetSplit<T>(a: seq<T>, t: T, b: seq<T>)
    ensures multiset(a + ([t] + b)) == multiset([t]) + multiset(a + b)
  {
    assert multiset(a + ([t] + b)) == multiset(a) + multiset([t]) + multiset(b);
    assert multiset(a + b) == multiset(a) + multiset(b);
  }
}
