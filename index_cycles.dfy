/**
  Permutations of the positions 0..n-1 and their cycles.

  Cycle crossover follows, from a position i, the position at which parent 2 holds
  the element parent 1 holds at i. When parent 2 is a permutation of parent 1 that
  step is a permutation of the positions, and every position lies on exactly one
  cycle of it. This module proves what the crossover needs about those cycles.
*/
module IndexCycles {
  import opened Sequences

  /** `sigma` maps each position below |sigma| to a position below |sigma|, no two to the same one. */
  predicate IsIndexPermutation(sigma: seq<nat>)
  {
    (forall i :: 0 <= i < |sigma| ==> sigma[i] < |sigma|) && Distinct(sigma)
  }

  /** The position reached from `i` after `k` steps of `sigma`. */
  function Iterate(sigma: seq<nat>, i: nat, k: nat): (r: nat)
    requires IsIndexPermutation(sigma) && i < |sigma|
    ensures r < |sigma|
  {
    if k == 0 then i else sigma[Iterate(sigma, i, k - 1)]
  }

  /** The positions on the cycle through `i`. */
  ghost function Orbit(sigma: seq<nat>, i: nat): set<nat>
    requires IsIndexPermutation(sigma) && i < |sigma|
  {
    set k | 0 <= k < |sigma| :: Iterate(sigma, i, k)
  }

  /** The smallest of the positions reached from `i` in at most `k` steps. */
  function MinReached(sigma: seq<nat>, i: nat, k: nat): (m: nat)
    requires IsIndexPermutation(sigma) && i < |sigma|
    ensures exists j :: 0 <= j <= k && m == Iterate(sigma, i, j)
    ensures forall j :: 0 <= j <= k ==> m <= Iterate(sigma, i, j)
  {
    if k == 0 then
      assert i == Iterate(sigma, i, 0);
      i
    else
      var m := MinReached(sigma, i, k - 1);
      var r := Iterate(sigma, i, k);
      if r < m then r else m
  }

  /** The smallest position on the cycle through `i`: the position from which a scan
      in increasing order first reaches that cycle. */
  function Leader(sigma: seq<nat>, i: nat): (m: nat)
    requires IsIndexPermutation(sigma) && i < |sigma|
    ensures m in Orbit(sigma, i)
    ensures forall x :: x in Orbit(sigma, i) ==> m <= x
  {
    var m := MinReached(sigma, i, |sigma| - 1);
    assert forall x :: x in Orbit(sigma, i) ==> m <= x;
    m
  }

  /** Walking `a` steps and then `b` steps is walking `a + b` steps. */
  lemma {:induction false} IterateAdd(sigma: seq<nat>, i: nat, a: nat, b: nat)
    requires IsIndexPermutation(sigma) && i < |sigma|
    ensures Iterate(sigma, i, a + b) == Iterate(sigma, Iterate(sigma, i, a), b)
  {
    if b > 0 {
      IterateAdd(sigma, i, a, b - 1);
    }
  }

  /** Because `sigma` is injective, two walks from `i` that meet can be shortened by the same number of steps. */
  lemma {:induction false} IterateCancel(sigma: seq<nat>, i: nat, a: nat, b: nat)
    requires IsIndexPermutation(sigma) && i < |sigma|
    requires a <= b && Iterate(sigma, i, a) == Iterate(sigma, i, b)
    ensures Iterate(sigma, i, b - a) == i
  {
    if a > 0 {
      var x, y := Iterate(sigma, i, a - 1), Iterate(sigma, i, b - 1);
      assert sigma[x] == sigma[y];
      IterateCancel(sigma, i, a - 1, b - 1);
    }
  }

  /** Pigeonhole: a duplicate-free sequence of positions below `n` has at most `n` elements. */
  lemma {:induction false} DistinctBelow(s: seq<nat>, n: nat)
    requires Distinct(s)
    requires forall k :: 0 <= k < |s| ==> s[k] < n
    ensures |s| <= n
  {
    if s != [] {
      assert s[0] < n;
      if k :| 0 <= k < |s| && s[k] == n - 1 {
        var t := s[..k] + s[k + 1..];
        assert forall m :: 0 <= m < |t| ==> t[m] == if m < k then s[m] else s[m + 1];
        assert forall m :: 0 <= m < |t| ==> t[m] < n - 1 by {
          forall m | 0 <= m < |t| ensures t[m] < n - 1 {
            if m < k { assert s[m] != s[k]; } else { assert s[m + 1] != s[k]; }
          }
        }
        assert Distinct(t) by {
          forall a, b | 0 <= a < b < |t| ensures t[a] != t[b] {
            var a', b' := if a < k then a else a + 1, if b < k then b else b + 1;
            assert t[a] == s[a'] && t[b] == s[b'] && a' < b';
          }
        }
        DistinctBelow(t, n - 1);
      } else {
        assert forall m :: 0 <= m < |s| ==> s[m] < n - 1 by {
          forall m | 0 <= m < |s| ensures s[m] < n - 1 {
            assert s[m] != n - 1;
          }
        }
        DistinctBelow(s, n - 1);
      }
    }
  }

  /** Every position returns to itself after at most n steps. */
  lemma Period(sigma: seq<nat>, i: nat) returns (p: nat)
    requires IsIndexPermutation(sigma) && i < |sigma|
    ensures 1 <= p <= |sigma| && Iterate(sigma, i, p) == i
  {
    var n := |sigma|;
    var walk := seq(n + 1, k requires 0 <= k <= n => Iterate(sigma, i, k));
    if Distinct(walk) {
      DistinctBelow(walk, n);
      assert false;
    }
    var a, b :| 0 <= a < b < |walk| && walk[a] == walk[b];
    IterateCancel(sigma, i, a, b);
    p := b - a;
  }

  /** However many steps are taken from `i`, the walk stays on the cycle through `i`. */
  lemma {:induction false} IterateInOrbit(sigma: seq<nat>, i: nat, k: nat)
    requires IsIndexPermutation(sigma) && i < |sigma|
    ensures Iterate(sigma, i, k) in Orbit(sigma, i)
    decreases k
  {
    if k >= |sigma| {
      var p := Period(sigma, i);
      IterateAdd(sigma, i, p, k - p);
      IterateInOrbit(sigma, i, k - p);
    }
  }

  /** One step does not leave the cycle: `sigma[i]` has the same cycle as `i`. */
  lemma OrbitStep(sigma: seq<nat>, i: nat)
    requires IsIndexPermutation(sigma) && i < |sigma|
    ensures Orbit(sigma, sigma[i]) == Orbit(sigma, i)
  {
    var j := sigma[i];
    assert Iterate(sigma, i, 1) == j;
    forall x | x in Orbit(sigma, j) ensures x in Orbit(sigma, i) {
      var k :| 0 <= k < |sigma| && x == Iterate(sigma, j, k);
      IterateAdd(sigma, i, 1, k);
      IterateInOrbit(sigma, i, 1 + k);
    }
    forall x | x in Orbit(sigma, i) ensures x in Orbit(sigma, j) {
      var k :| 0 <= k < |sigma| && x == Iterate(sigma, i, k);
      var p := Period(sigma, i);
      IterateAdd(sigma, i, p, k);
      IterateAdd(sigma, i, 1, p - 1 + k);
      IterateInOrbit(sigma, j, p - 1 + k);
    }
  }

  /** Every position reached from `i` has the same cycle as `i`. */
  lemma {:induction false} OrbitIterate(sigma: seq<nat>, i: nat, k: nat)
    requires IsIndexPermutation(sigma) && i < |sigma|
    ensures Orbit(sigma, Iterate(sigma, i, k)) == Orbit(sigma, i)
  {
    if k > 0 {
      OrbitIterate(sigma, i, k - 1);
      OrbitStep(sigma, Iterate(sigma, i, k - 1));
    }
  }

  /** Two positions on one cycle have the same cycle. */
  lemma OrbitOfMember(sigma: seq<nat>, i: nat, j: nat)
    requires IsIndexPermutation(sigma) && i < |sigma|
    requires j in Orbit(sigma, i)
    ensures j < |sigma| && Orbit(sigma, j) == Orbit(sigma, i)
  {
    var k :| 0 <= k < |sigma| && j == Iterate(sigma, i, k);
    OrbitIterate(sigma, i, k);
  }

  /** Positions with the same cycle have the same leader. */
  lemma LeaderOfSameOrbit(sigma: seq<nat>, i: nat, j: nat)
    requires IsIndexPermutation(sigma) && i < |sigma| && j < |sigma|
    requires Orbit(sigma, i) == Orbit(sigma, j)
    ensures Leader(sigma, i) == Leader(sigma, j)
  {
    var a, b := Leader(sigma, i), Leader(sigma, j);
    assert a <= b && b <= a;
  }

  /** The leader does not change along a cycle. */
  lemma LeaderStep(sigma: seq<nat>, i: nat)
    requires IsIndexPermutation(sigma) && i < |sigma|
    ensures Leader(sigma, sigma[i]) == Leader(sigma, i)
  {
    OrbitStep(sigma, i);
    LeaderOfSameOrbit(sigma, sigma[i], i);
  }

  /** Positions that share a leader lie on one cycle. */
  lemma SameLeaderSameOrbit(sigma: seq<nat>, i: nat, j: nat)
    requires IsIndexPermutation(sigma) && i < |sigma| && j < |sigma|
    requires Leader(sigma, i) == Leader(sigma, j)
    ensures j in Orbit(sigma, i)
  {
    var m := Leader(sigma, i);
    OrbitOfMember(sigma, i, m);
    OrbitOfMember(sigma, j, m);
    assert j == Iterate(sigma, j, 0);
  }

  /** If a walk from `s` returns after `len` steps to a position it visited at step `a`,
      then every position it ever reaches is among its first `len` positions. */
  lemma {:induction false} WalkRepeats(sigma: seq<nat>, s: nat, len: nat, a: nat, k: nat)
    requires IsIndexPermutation(sigma) && s < |sigma|
    requires a < len && Iterate(sigma, s, len) == Iterate(sigma, s, a)
    ensures exists j :: 0 <= j < len && Iterate(sigma, s, k) == Iterate(sigma, s, j)
    decreases k
  {
    if k < len {
      assert Iterate(sigma, s, k) == Iterate(sigma, s, k);
    } else {
      IterateAdd(sigma, s, len, k - len);
      IterateAdd(sigma, s, a, k - len);
      WalkRepeats(sigma, s, len, a, a + (k - len));
    }
  }
}
