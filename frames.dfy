// Row selection as the pipeline uses it: boolean-mask filtering, whole-row
// de-duplication keeping first occurrences, and the subsequence relation
// those two steps keep.
module Frames {

  /**
   * `a` is `b` with some elements left out, order kept. Read from the back:
   * the last element of `b` is either dropped or matches the last of `a`.
   */
  predicate IsSubseq<T(==)>(a: seq<T>, b: seq<T>)
    decreases |b|
  {
    if b == [] then a == []
    else
      IsSubseq(a, b[..|b| - 1]) ||
      (a != [] && a[|a| - 1] == b[|b| - 1] && IsSubseq(a[..|a| - 1], b[..|b| - 1]))
  }

  /** Leaving out elements twice is leaving them out once. */
  lemma {:induction false} IsSubseqTrans<T>(a: seq<T>, b: seq<T>, c: seq<T>)
    requires IsSubseq(a, b) && IsSubseq(b, c)
    ensures IsSubseq(a, c)
    decreases |c|
  {
    if c == [] {
    } else {
      var c' := c[..|c| - 1];
      if IsSubseq(b, c') {
        IsSubseqTrans(a, b, c');
      } else {
        var b' := b[..|b| - 1];
        assert b != [] && b[|b| - 1] == c[|c| - 1] && IsSubseq(b', c');
        if IsSubseq(a, b') {
          IsSubseqTrans(a, b', c');
        } else {
          var a' := a[..|a| - 1];
          assert a != [] && a[|a| - 1] == b[|b| - 1] && IsSubseq(a', b');
          IsSubseqTrans(a', b', c');
        }
      }
    }
  }

  /** A subsequence is no longer than the sequence it is taken from. */
  lemma {:induction false} IsSubseqLength<T>(a: seq<T>, b: seq<T>)
    requires IsSubseq(a, b)
    ensures |a| <= |b|
    decreases |b|
  {
    if b != [] {
      if IsSubseq(a, b[..|b| - 1]) {
        IsSubseqLength(a, b[..|b| - 1]);
      } else {
        IsSubseqLength(a[..|a| - 1], b[..|b| - 1]);
      }
    }
  }

  /** A subsequence as long as the sequence is the sequence itself. */
  lemma {:induction false} IsSubseqFull<T>(a: seq<T>, b: seq<T>)
    requires IsSubseq(a, b) && |a| == |b|
    ensures a == b
    decreases |b|
  {
    if b != [] {
      if IsSubseq(a, b[..|b| - 1]) {
        IsSubseqLength(a, b[..|b| - 1]);
      } else {
        IsSubseqFull(a[..|a| - 1], b[..|b| - 1]);
        assert a == a[..|a| - 1] + [a[|a| - 1]];
        assert b == b[..|b| - 1] + [b[|b| - 1]];
      }
    }
  }

  /** No element occurs twice. */
  predicate NoDuplicates<T(==)>(s: seq<T>) {
    forall i, j :: 0 <= i < j < |s| ==> s[i] != s[j]
  }

  /** `df[mask]`: the elements satisfying `keep`, in their original order. */
  function Filter<T(==,!new)>(keep: T -> bool, s: seq<T>): (r: seq<T>)
    ensures forall x :: x in r ==> keep(x)
    ensures forall x :: multiset(r)[x] == if keep(x) then multiset(s)[x] else 0
    ensures IsSubseq(r, s)
    decreases |s|
  {
    if s == [] then []
    else
      var init, last := s[..|s| - 1], s[|s| - 1];
      assert s == init + [last];
      var rest := Filter(keep, init);
      if keep(last) then
        assert (rest + [last])[..|rest|] == rest;
        rest + [last]
      else
        rest
  }

  /**
   * `drop_duplicates()`: the first occurrence of every element, in the
   * order of first occurrence. The last ensures says that whenever `r[i]`
   * comes before `r[j]`, every occurrence of `r[j]` in `s` is preceded by
   * an occurrence of `r[i]`.
   */
  function DropDuplicates<T(==,!new)>(s: seq<T>): (r: seq<T>)
    ensures NoDuplicates(r)
    ensures forall x :: x in r <==> x in s
    ensures IsSubseq(r, s)
    ensures forall i, j, k :: 0 <= i < j < |r| && 0 <= k < |s| && s[k] == r[j] ==> r[i] in s[..k]
    decreases |s|
  {
    if s == [] then []
    else
      var init, last := s[..|s| - 1], s[|s| - 1];
      assert s == init + [last];
      var rest := DropDuplicates(init);
      assert forall k :: 0 <= k < |init| ==> s[..k] == init[..k];
      if last in init then
        rest
      else
        assert (rest + [last])[..|rest|] == rest;
        rest + [last]
  }

  /**
   * The first-occurrence order `drop_duplicates` keeps over a filtered
   * sequence holds over the unfiltered one too, for rows the filter keeps.
   */
  lemma FilterFirstOccurrence<T(!new)>(keep: T -> bool, s: seq<T>, r: seq<T>)
    requires forall x :: x in r ==> keep(x)
    requires forall i, j, k :: 0 <= i < j < |r| && 0 <= k < |Filter(keep, s)| && Filter(keep, s)[k] == r[j] ==>
      r[i] in Filter(keep, s)[..k]
    ensures forall i, j, k :: 0 <= i < j < |r| && 0 <= k < |s| && s[k] == r[j] ==> r[i] in s[..k]
  {
    forall i, j, k | 0 <= i < j < |r| && 0 <= k < |s| && s[k] == r[j] ensures r[i] in s[..k] {
      FilterPosition(keep, s, k);
      var p := Filter(keep, s[..k]);
      assert r[i] in p;
      assert multiset(p)[r[i]] > 0;
    }
  }

  /**
   * A kept element `s[k]` sits in `Filter(keep, s)` right after the kept
   * elements of `s[..k]`.
   */
  lemma {:induction false} FilterPosition<T(!new)>(keep: T -> bool, s: seq<T>, k: nat)
    requires k < |s| && keep(s[k])
    ensures var f, p := Filter(keep, s), Filter(keep, s[..k]);
      |p| < |f| && f[..|p|] == p && f[|p|] == s[k]
    decreases |s|
  {
    var init := s[..|s| - 1];
    assert s == init + [s[|s| - 1]];
    var rest := Filter(keep, init);
    if k < |s| - 1 {
      FilterPosition(keep, init, k);
      assert init[..k] == s[..k];
      assert Filter(keep, s)[..|rest|] == rest;
    } else {
      assert init == s[..k];
    }
  }

  /** An element occurring at two positions is counted at least twice. */
  lemma TwoCopies<T>(s: seq<T>, i: nat, j: nat)
    requires i < j < |s| && s[i] == s[j]
    ensures multiset(s)[s[i]] >= 2
  {
    assert s == s[..j] + [s[j]] + s[j + 1..];
    assert s[i] in s[..j];
  }

  /** Without duplicates every element is counted at most once. */
  lemma {:induction false} DistinctCounts<T>(s: seq<T>, x: T)
    requires NoDuplicates(s)
    ensures multiset(s)[x] <= 1
    decreases |s|
  {
    if s != [] {
      var init := s[..|s| - 1];
      assert s == init + [s[|s| - 1]];
      assert NoDuplicates(init);
      DistinctCounts(init, x);
    }
  }

  /** Reordering cannot create duplicates. */
  lemma DistinctPermutation<T>(a: seq<T>, b: seq<T>)
    requires NoDuplicates(a) && multiset(a) == multiset(b)
    ensures NoDuplicates(b)
  {
    forall i, j | 0 <= i < j < |b|
      ensures b[i] != b[j]
    {
      if b[i] == b[j] {
        TwoCopies(b, i, j);
        DistinctCounts(a, b[i]);
      }
    }
  }
}
