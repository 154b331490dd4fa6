/** Facts about routes: sequences in which every element occurs once. */
module Sequences {

  /** No element occurs twice in `s`. */
  predicate Distinct<T(==)>(s: seq<T>)
  {
    forall i, j :: 0 <= i < j < |s| ==> s[i] != s[j]
  }

  /** `s` is a route over the same elements as `t`: no duplicates, and the same multiset. */
  predicate IsPermutationOf<T(==)>(s: seq<T>, t: seq<T>)
  {
    Distinct(s) && multiset(s) == multiset(t)
  }

  /** The elements of `s` that do not occur in `excluded`, in the order they have in `s`. */
  function Without<T(==,!new)>(s: seq<T>, excluded: seq<T>): (r: seq<T>)
    ensures |r| <= |s|
    ensures forall x :: x in r <==> x in s && x !in excluded
  {
    if s == [] then []
    else
      var init, last := s[..|s| - 1], s[|s| - 1];
      assert s == init + [last];
      Without(init, excluded) + (if last in excluded then [] else [last])
  }

  /** `Without` drops every occurrence of an excluded element and keeps every occurrence of the others. */
  lemma {:induction false} WithoutCounts<T(!new)>(s: seq<T>, excluded: seq<T>)
    ensures forall x :: multiset(Without(s, excluded))[x] == if x in excluded then 0 else multiset(s)[x]
  {
    if s != [] {
      var init, last := s[..|s| - 1], s[|s| - 1];
      assert s == init + [last];
      WithoutCounts(init, excluded);
    }
  }

  /** Index of the first occurrence of `x` in `s`. */
  function PositionOf<T(==)>(s: seq<T>, x: T): (k: nat)
    requires x in s
    ensures k < |s| && s[k] == x
    ensures forall j :: 0 <= j < k ==> s[j] != x
  {
    if s[0] == x then 0 else 1 + PositionOf(s[1..], x)
  }

  /** In a sequence without duplicates, every element counts once. */
  lemma {:induction false} DistinctCounts<T>(s: seq<T>)
    requires Distinct(s)
    ensures forall x :: multiset(s)[x] == if x in s then 1 else 0
  {
    if s != [] {
      DistinctCounts(s[1..]);
      assert s == [s[0]] + s[1..];
      assert s[0] !in s[1..];
    }
  }

  /** A sequence whose elements each count at most once has no duplicates. */
  lemma {:induction false} CountsDistinct<T>(s: seq<T>)
    requires forall x :: multiset(s)[x] <= 1
    ensures Distinct(s)
  {
    if s != [] {
      assert s == [s[0]] + s[1..];
      forall x ensures multiset(s[1..])[x] <= 1 {
        assert multiset(s)[x] == multiset([s[0]])[x] + multiset(s[1..])[x];
      }
      CountsDistinct(s[1..]);
      assert multiset(s)[s[0]] == 1 + multiset(s[1..])[s[0]];
      assert s[0] !in s[1..];
      forall i, j | 0 <= i < j < |s| ensures s[i] != s[j] {
        if i > 0 {
          assert s[i] == s[1..][i - 1] && s[j] == s[1..][j - 1];
        } else {
          assert s[j] == s[1..][j - 1];
        }
      }
    }
  }

  /** Two duplicate-free sequences over the same set of elements are permutations of each other. */
  lemma PermutationBySets<T>(s: seq<T>, t: seq<T>)
    requires Distinct(s) && Distinct(t)
    requires forall x :: x in s <==> x in t
    ensures IsPermutationOf(s, t) && |s| == |t|
  {
    DistinctCounts(s);
    DistinctCounts(t);
    assert multiset(s) == multiset(t);
    assert |multiset(s)| == |multiset(t)|;
  }

  /** Being a permutation of one another is symmetric. */
  lemma PermutationSymmetric<T>(s: seq<T>, t: seq<T>)
    requires IsPermutationOf(s, t)
    ensures IsPermutationOf(t, s) && |s| == |t|
    ensures forall x :: x in s <==> x in t
  {
    DistinctCounts(s);
    assert |multiset(s)| == |multiset(t)|;
    forall x ensures multiset(t)[x] <= 1 {
      assert multiset(t)[x] == multiset(s)[x];
    }
    CountsDistinct(t);
    forall x ensures x in s <==> x in t {
      assert x in s <==> x in multiset(s);
      assert x in t <==> x in multiset(t);
    }
  }

  /** A slice of a duplicate-free sequence is duplicate-free, and shares no element with the rest. */
  lemma DistinctSlice<T>(s: seq<T>, lo: nat, hi: nat)
    requires Distinct(s) && lo <= hi <= |s|
    ensures Distinct(s[lo..hi])
    ensures forall k :: 0 <= k < |s| && !(lo <= k < hi) ==> s[k] !in s[lo..hi]
  {
    var t := s[lo..hi];
    forall i, j | 0 <= i < j < |t| ensures t[i] != t[j] {
      assert t[i] == s[lo + i] && t[j] == s[lo + j];
    }
    forall k | 0 <= k < |s| && !(lo <= k < hi) ensures s[k] !in t {
      forall m | 0 <= m < |t| ensures t[m] != s[k] {
        assert t[m] == s[lo + m];
      }
    }
  }

  /** Two duplicate-free sequences with no element in common concatenate to a duplicate-free sequence. */
  lemma DistinctConcat<T>(s: seq<T>, t: seq<T>)
    requires Distinct(s) && Distinct(t)
    requires forall x :: x in s ==> x !in t
    ensures Distinct(s + t)
  {
    var st := s + t;
    forall i, j | 0 <= i < j < |st| ensures st[i] != st[j] {
      if j < |s| {
        assert st[i] == s[i] && st[j] == s[j];
      } else if i >= |s| {
        assert st[i] == t[i - |s|] && st[j] == t[j - |s|];
      } else {
        assert st[i] == s[i] && st[j] == t[j - |s|];
        assert s[i] in s;
      }
    }
  }

  /** Filtering a duplicate-free sequence leaves it duplicate-free. */
  lemma WithoutDistinct<T(!new)>(s: seq<T>, excluded: seq<T>)
    requires Distinct(s)
    ensures Distinct(Without(s, excluded))
  {
    DistinctCounts(s);
    WithoutCounts(s, excluded);
    var r := Without(s, excluded);
    forall x ensures multiset(r)[x] <= 1 { }
    CountsDistinct(r);
  }

  /** Filtering a prefix once more element is known: the filtered prefix grows by that element when it is kept. */
  lemma WithoutSnoc<T(!new)>(s: seq<T>, k: nat, excluded: seq<T>)
    requires k < |s|
    ensures Without(s[..k + 1], excluded)
         == Without(s[..k], excluded) + (if s[k] in excluded then [] else [s[k]])
  {
    assert s[..k + 1][..k] == s[..k];
  }

  /** Appending one element to `s` appends it to the filtered sequence too, unless it is excluded. */
  lemma WithoutAppend<T(!new)>(s: seq<T>, x: T, excluded: seq<T>)
    ensures Without(s + [x], excluded) == Without(s, excluded) + (if x in excluded then [] else [x])
  {
    assert (s + [x])[..|s|] == s;
  }

  /** Filtering a prefix never yields more than filtering the whole sequence. */
  lemma {:induction false} WithoutPrefixShorter<T(!new)>(s: seq<T>, k: nat, excluded: seq<T>)
    requires k <= |s|
    ensures |Without(s[..k], excluded)| <= |Without(s, excluded)|
  {
    if k < |s| {
      var init := s[..|s| - 1];
      assert s == init + [s[|s| - 1]];
      assert s[..k] == init[..k];
      WithoutPrefixShorter(init, k, excluded);
    } else {
      assert s[..k] == s;
    }
  }

  /** Removing from a route some distinct elements of it removes exactly that many elements. */
  lemma WithoutLength<T(!new)>(s: seq<T>, excluded: seq<T>)
    requires Distinct(s) && Distinct(excluded)
    requires forall x :: x in excluded ==> x in s
    ensures |Without(s, excluded)| == |s| - |excluded|
  {
    var r := Without(s, excluded);
    WithoutCounts(s, excluded);
    DistinctCounts(s);
    DistinctCounts(excluded);
    assert multiset(r) + multiset(excluded) == multiset(s) by {
      forall x ensures (multiset(r) + multiset(excluded))[x] == multiset(s)[x] { }
    }
    assert |multiset(r) + multiset(excluded)| == |r| + |excluded|;
  }

  /** Every element `Without` keeps is an element of `s` outside `excluded`. */
  lemma WithoutElement<T(!new)>(s: seq<T>, excluded: seq<T>, i: nat)
    requires i < |Without(s, excluded)|
    ensures Without(s, excluded)[i] in s && Without(s, excluded)[i] !in excluded
  {
    var r := Without(s, excluded);
    assert r[i] in multiset(r);
    assert multiset(s)[r[i]] > 0;
  }

  /** `Without` keeps the order of `s`: earlier kept elements come from earlier positions of `s`. */
  lemma {:induction false} WithoutKeepsOrder<T(!new)>(s: seq<T>, excluded: seq<T>, i: nat, j: nat)
    requires Distinct(s)
    requires i < j < |Without(s, excluded)|
    ensures Without(s, excluded)[i] in s && Without(s, excluded)[j] in s
    ensures PositionOf(s, Without(s, excluded)[i]) < PositionOf(s, Without(s, excluded)[j])
  {
    var r := Without(s, excluded);
    var init, last := s[..|s| - 1], s[|s| - 1];
    var r0 := Without(init, excluded);
    assert r == r0 + (if last in excluded then [] else [last]) by {
      assert s == init + [last];
    }
    WithoutElement(s, excluded, i);
    WithoutElement(s, excluded, j);
    assert init == s[..|init|];
    if j < |r0| {
      assert r[i] == r0[i] && r[j] == r0[j];
      WithoutKeepsOrder(init, excluded, i, j);
      PositionInPrefix(s, init, r[i]);
      PositionInPrefix(s, init, r[j]);
    } else {
      assert r[j] == last && r[i] == r0[i];
      WithoutElement(init, excluded, i);
      PositionInPrefix(s, init, r[i]);
      var p := PositionOf(s, last);
      assert s[p] == s[|s| - 1];
    }
  }

  /** An element of a prefix sits at the same first position in the whole sequence. */
  lemma PositionInPrefix<T>(s: seq<T>, prefix: seq<T>, x: T)
    requires |prefix| <= |s| && prefix == s[..|prefix|]
    requires x in prefix
    ensures x in s && PositionOf(s, x) == PositionOf(prefix, x) < |prefix|
  {
    var p, q := PositionOf(s, x), PositionOf(prefix, x);
    assert s[q] == x;
    assert p <= q;
    assert prefix[p] == x;
  }
}
