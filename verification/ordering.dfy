/** `sorted(results)` on a list of records, which compares with the record's `<`.

    CPython sorts with Timsort, whose handling of records with equal publish dates
    depends on its merge schedule; the model sorts by insertion with the same `<`.
    Both produce a permutation ordered by non-decreasing publish date, and any two
    such permutations of one list agree on the sequence of dates, so the model and
    Python differ at most in the order of records published at the same second. */
module Ordering {
  import opened ProtonRecord

  predicate SortedByDate(s: seq<Proton>) {
    forall i, j :: 0 <= i < j < |s| ==> s[i].publishedAt <= s[j].publishedAt
  }

  /** Put `x` in front of the first record it is `<` to. */
  function Insert(x: Proton, s: seq<Proton>): (r: seq<Proton>)
    requires SortedByDate(s)
    ensures SortedByDate(r)
    ensures multiset(r) == multiset(s) + multiset{x}
  {
    if |s| == 0 then [x]
    else if Lt(x, s[0]) then [x] + s
    else
      assert s == [s[0]] + s[1..];
      var rest := Insert(x, s[1..]);
      HeadBelow(s, x, rest);
      [s[0]] + rest
  }

  /** The head of a sorted list is no later than anything the rest of it,
      with a later record inserted, holds. */
  lemma HeadBelow(s: seq<Proton>, x: Proton, rest: seq<Proton>)
    requires SortedByDate(s) && |s| > 0 && s[0].publishedAt <= x.publishedAt
    requires multiset(rest) == multiset(s[1..]) + multiset{x}
    ensures forall k :: 0 <= k < |rest| ==> s[0].publishedAt <= rest[k].publishedAt
  {
    forall k | 0 <= k < |rest|
      ensures s[0].publishedAt <= rest[k].publishedAt
    {
      assert rest[k] in multiset(rest);
      if rest[k] != x {
        assert rest[k] in multiset(s[1..]);
        var j :| 0 <= j < |s[1..]| && s[1..][j] == rest[k];
        assert s[j + 1] == rest[k];
      }
    }
  }

  /** `sorted(s)`: a permutation of `s` in non-decreasing publish-date order. */
  function Sort(s: seq<Proton>): (r: seq<Proton>)
    ensures SortedByDate(r)
    ensures multiset(r) == multiset(s)
  {
    if |s| == 0 then []
    else
      assert s == [s[0]] + s[1..];
      Insert(s[0], Sort(s[1..]))
  }

  // ----- projections and permutations -----

  function Map<A, B>(s: seq<A>, f: A -> B): (r: seq<B>)
    ensures |r| == |s|
    ensures forall i :: 0 <= i < |s| ==> r[i] == f(s[i])
  {
    seq(|s|, i requires 0 <= i < |s| => f(s[i]))
  }

  function DateOf(p: Proton): int {
    p.publishedAt
  }

  function VersionOf(p: Proton): string {
    p.version
  }

  /** The publish dates of a list of records, in list order. */
  function Dates(s: seq<Proton>): seq<int> {
    Map(s, DateOf)
  }

  /** The versions of a list of records, in list order. */
  function Versions(s: seq<Proton>): seq<string> {
    Map(s, VersionOf)
  }

  /** Python's `x in xs` on records asks whether `x`'s version is among the
      versions of `xs`; the other fields play no part. */
  lemma ContainsIsVersionIn(xs: seq<Proton>, x: Proton)
    ensures Contains(xs, x) <==> x.version in Versions(xs)
  {
    var vs := Versions(xs);
    if x.version in vs {
      var i :| 0 <= i < |vs| && vs[i] == x.version;
      assert Eq(xs[i], x);
    }
    if Contains(xs, x) {
      var i :| 0 <= i < |xs| && Eq(xs[i], x);
      assert vs[i] == x.version;
    }
  }

  predicate Distinct<T(==)>(s: seq<T>) {
    forall i, j :: 0 <= i < j < |s| ==> s[i] != s[j]
  }

  /** No two records share a version. */
  predicate DistinctVersions(s: seq<Proton>) {
    Distinct(Versions(s))
  }

  predicate SortedInts(s: seq<int>) {
    forall i, j :: 0 <= i < j < |s| ==> s[i] <= s[j]
  }

  /** Removing the element at `k` removes one occurrence of it. */
  lemma RemoveAt<A>(b: seq<A>, k: nat)
    requires k < |b|
    ensures multiset(b[..k] + b[k + 1..]) == multiset(b) - multiset{b[k]}
  {
    assert b == b[..k] + [b[k]] + b[k + 1..];
  }

  /** Projecting a list with the element at `k` removed drops one occurrence of
      that element's projection. */
  lemma MapRemoveAt<A, B>(b: seq<A>, k: nat, f: A -> B)
    requires k < |b|
    ensures multiset(Map(b, f)) == multiset(Map(b[..k] + b[k + 1..], f)) + multiset{f(b[k])}
  {
    var m := Map(b, f);
    assert m == Map(b[..k], f) + [f(b[k])] + Map(b[k + 1..], f);
    assert Map(b[..k] + b[k + 1..], f) == Map(b[..k], f) + Map(b[k + 1..], f);
  }

  lemma MapRemoveFirst<A, B>(a: seq<A>, f: A -> B)
    requires |a| > 0
    ensures multiset(Map(a, f)) == multiset(Map(a[1..], f)) + multiset{f(a[0])}
  {
    assert Map(a, f) == [f(a[0])] + Map(a[1..], f);
  }

  /** Where the first element of `a` sits in a permutation `b` of `a`. */
  lemma MatchFirst<A>(a: seq<A>, b: seq<A>) returns (k: nat)
    requires |a| > 0 && multiset(a) == multiset(b)
    ensures k < |b| && b[k] == a[0]
    ensures multiset(a[1..]) == multiset(b[..k] + b[k + 1..])
  {
    assert a[0] in multiset(a);
    assert a[0] in b;
    k :| 0 <= k < |b| && b[k] == a[0];
    RemoveAt(b, k);
    assert multiset(a[1..]) == multiset(a) - multiset{a[0]} by {
      assert a == [a[0]] + a[1..];
    }
  }

  /** Projecting two permutations of each other gives permutations of each other. */
  lemma {:induction false} MapPermutation<A, B>(a: seq<A>, b: seq<A>, f: A -> B)
    requires multiset(a) == multiset(b)
    ensures multiset(Map(a, f)) == multiset(Map(b, f))
    decreases |a|
  {
    if |a| == 0 {
      assert |b| == |multiset(b)| == 0;
    } else {
      var k := MatchFirst(a, b);
      var rest := b[..k] + b[k + 1..];
      MapPermutation(a[1..], rest, f);
      MapRemoveFirst(a, f);
      MapRemoveAt(b, k, f);
      assert multiset(Map(a[1..], f)) == multiset(Map(rest, f));
    }
  }

  /** Two sorted integer sequences with the same elements are equal. */
  lemma {:induction false} SortedIntsUnique(x: seq<int>, y: seq<int>)
    requires SortedInts(x) && SortedInts(y) && multiset(x) == multiset(y)
    ensures x == y
    decreases |x|
  {
    if |x| == 0 {
      assert |y| == |multiset(y)| == 0;
    } else {
      assert |y| == |multiset(y)| > 0;
      assert x[0] in multiset(y);
      assert y[0] in multiset(x);
      assert x[0] == y[0];
      assert x == [x[0]] + x[1..];
      assert y == [y[0]] + y[1..];
      assert multiset(x) == multiset{x[0]} + multiset(x[1..]);
      assert multiset(y) == multiset{y[0]} + multiset(y[1..]);
      assert multiset(x[1..]) == multiset(x) - multiset{x[0]} == multiset(y) - multiset{y[0]} == multiset(y[1..]);
      SortedIntsUnique(x[1..], y[1..]);
    }
  }

  /** Any two date-sorted permutations of the same records list the same publish
      dates in the same order: the sort result is determined up to the order of
      records with equal dates. */
  lemma SortedPermutationsAgree(a: seq<Proton>, b: seq<Proton>)
    requires multiset(a) == multiset(b)
    requires SortedByDate(a) && SortedByDate(b)
    ensures Dates(a) == Dates(b)
  {
    MapPermutation(a, b, DateOf);
    SortedIntsUnique(Dates(a), Dates(b));
  }

  lemma {:induction false} DistinctCountsOnce<T>(s: seq<T>, x: T)
    requires Distinct(s)
    ensures multiset(s)[x] <= 1
    decreases |s|
  {
    if |s| > 0 {
      assert s == [s[0]] + s[1..];
      assert Distinct(s[1..]) by {
        forall i, j | 0 <= i < j < |s[1..]| ensures s[1..][i] != s[1..][j] {
          assert s[1..][i] == s[i + 1] && s[1..][j] == s[j + 1];
        }
      }
      DistinctCountsOnce(s[1..], x);
      if x == s[0] {
        assert x !in s[1..] by {
          forall i | 0 <= i < |s[1..]| ensures s[1..][i] != x {
            assert s[1..][i] == s[i + 1];
          }
        }
      }
    }
  }

  lemma RepeatCountsTwice<T>(s: seq<T>, i: nat, j: nat)
    requires i < j < |s| && s[i] == s[j]
    ensures multiset(s)[s[i]] >= 2
  {
    assert s == s[..i] + [s[i]] + s[i + 1..j] + [s[j]] + s[j + 1..];
  }

  /** Having no repeated element survives any permutation. */
  lemma DistinctPermutation<T>(a: seq<T>, b: seq<T>)
    requires multiset(a) == multiset(b) && Distinct(a)
    ensures Distinct(b)
  {
    forall i, j | 0 <= i < j < |b|
      ensures b[i] != b[j]
    {
      DistinctCountsOnce(a, b[i]);
      if b[i] == b[j] {
        RepeatCountsTwice(b, i, j);
      }
    }
  }

  /** Sorting keeps versions pairwise distinct if they were. */
  lemma DistinctVersionsPermutation(a: seq<Proton>, b: seq<Proton>)
    requires multiset(a) == multiset(b) && DistinctVersions(a)
    ensures DistinctVersions(b)
  {
    MapPermutation(a, b, VersionOf);
    DistinctPermutation(Versions(a), Versions(b));
  }
}
