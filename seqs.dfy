/** Generic facts about sequences: distinctness and pandas' `drop_duplicates()`. */
module Seqs {

  /** No element occurs twice. */
  predicate Distinct<T(==)>(s: seq<T>) {
    forall i, j :: 0 <= i < j < |s| ==> s[i] != s[j]
  }

  /** The position of the first occurrence of `x` in `s`. */
  function FirstIndex<T(==)>(s: seq<T>, x: T): (i: nat)
    requires x in s
    ensures i < |s| && s[i] == x && x !in s[..i]
  {
    if s[0] == x then 0
    else
      var i := 1 + FirstIndex(s[1..], x);
      assert s[..i] == [s[0]] + s[1..][..i - 1];
      i
  }

  /** The first occurrence of `x` in `s` is also its first occurrence in any
      prefix of `s` that contains it. */
  lemma {:induction false} FirstIndexInPrefix<T>(s: seq<T>, k: nat, x: T)
    requires k <= |s| && x in s[..k]
    ensures FirstIndex(s, x) == FirstIndex(s[..k], x)
  {
    if s[0] != x {
      assert s[..k] == [s[0]] + s[1..][..k - 1];
      FirstIndexInPrefix(s[1..], k - 1, x);
    }
  }

  /** Every element of `p` drawn from the first `n` elements of `s` has its first
      occurrence there. */
  lemma FirstIndicesInPrefix<T>(s: seq<T>, n: nat, p: seq<T>)
    requires n <= |s|
    requires forall i :: 0 <= i < |p| ==> p[i] in s[..n]
    ensures forall i :: 0 <= i < |p| ==> FirstIndex(s, p[i]) == FirstIndex(s[..n], p[i]) < n
  {
    forall i | 0 <= i < |p| ensures FirstIndex(s, p[i]) == FirstIndex(s[..n], p[i]) {
      FirstIndexInPrefix(s, n, p[i]);
    }
  }

  /** pandas' `drop_duplicates()` with its default `keep='first'`: every value once,
      at the position of its first occurrence. */
  function Dedup<T(==)>(s: seq<T>): (r: seq<T>)
    ensures Distinct(r)
    ensures forall i :: 0 <= i < |r| ==> r[i] in s
    ensures forall i :: 0 <= i < |s| ==> s[i] in r
  {
    if s == [] then []
    else
      var n := |s| - 1;
      var p := Dedup(s[..n]);
      assert s == s[..n] + [s[n]];
      if s[n] in s[..n] then p else p + [s[n]]
  }

  /** `Dedup` keeps the values in the order of their first occurrences. */
  lemma {:induction false} DedupFirstOrder<T>(s: seq<T>)
    ensures forall i, j :: 0 <= i < j < |Dedup(s)| ==> FirstIndex(s, Dedup(s)[i]) < FirstIndex(s, Dedup(s)[j])
  {
    if s != [] {
      var n := |s| - 1;
      var p := Dedup(s[..n]);
      DedupFirstOrder(s[..n]);
      assert s == s[..n] + [s[n]];
      FirstIndicesInPrefix(s, n, p);
      if s[n] !in s[..n] {
        assert FirstIndex(s, s[n]) == n;
      }
    }
  }

  /** In a sequence without repeats, every element has multiplicity one. */
  lemma {:induction false} DistinctMultiplicity<T>(s: seq<T>, x: T)
    requires Distinct(s)
    ensures multiset(s)[x] == if x in s then 1 else 0
  {
    if s != [] {
      var n := |s| - 1;
      assert s == s[..n] + [s[n]];
      assert Distinct(s[..n]);
      DistinctMultiplicity(s[..n], x);
    }
  }

  /** An element found at two positions has multiplicity at least two. */
  lemma RepeatMultiplicity<T>(s: seq<T>, i: nat, j: nat)
    requires i < j < |s| && s[i] == s[j]
    ensures multiset(s)[s[i]] >= 2
  {
    assert s == s[..j] + [s[j]] + s[j + 1..];
    assert s[..j][i] == s[i];
  }

  /** Reordering keeps a sequence free of repeats. */
  lemma DistinctPermutation<T>(a: seq<T>, b: seq<T>)
    requires Distinct(a) && multiset(a) == multiset(b)
    ensures Distinct(b)
  {
    forall i, j | 0 <= i < j < |b|
      ensures b[i] != b[j]
    {
      if b[i] == b[j] {
        RepeatMultiplicity(b, i, j);
        DistinctMultiplicity(a, b[i]);
      }
    }
  }

  /** A sequence without repeats has as many distinct elements as positions. */
  lemma {:induction false} DistinctCardinality<T>(s: seq<T>)
    requires Distinct(s)
    ensures |set x | x in s| == |s|
  {
    if s != [] {
      var n := |s| - 1;
      assert s == s[..n] + [s[n]];
      assert Distinct(s[..n]);
      DistinctCardinality(s[..n]);
      assert (set x | x in s) == (set x | x in s[..n]) + {s[n]};
    }
  }

  /** The same element added to two multisets leaves them equal only if they were. */
  lemma MultisetCancel<T>(m: multiset<T>, n: multiset<T>, x: T)
    requires m + multiset{x} == n + multiset{x}
    ensures m == n
  {
    forall y ensures m[y] == n[y] {
      assert (m + multiset{x})[y] == (n + multiset{x})[y];
    }
  }
}
