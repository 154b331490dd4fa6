/**
  Two places where the crossover operators, as written, do not do what cycle crossover
  and order crossover are defined to do, each shown on a concrete input, together with
  the operator as it was evidently meant and the property that the correction restores.

  Cycle crossover chooses a cycle's orientation by the parity of the number of positions
  visited so far, so two cycles in a row can both come from parent 2 and a route with a
  single cycle gives parent 2 back as child 1. The intended rule alternates: the first
  cycle (the one through position 0) from parent 1, the next from parent 2, and so on.

  Order crossover scans the other parent from its start, whereas OX1 reads it from the
  second cut point onwards, so crossing a route with itself does not give it back.
*/
module CorrectedCrossover {
  import opened Sequences
  import opened IndexCycles
  import opened CrossoverMethods

  // ---------------------------------------------------------------------------
  // Cycle crossover: alternate the cycles
  // ---------------------------------------------------------------------------

  /** The leaders (smallest positions of their cycles) below `bound`: the scan positions
      that start a new cycle. */
  ghost function LeadersBelow(sigma: seq<nat>, bound: nat): set<nat>
    requires IsIndexPermutation(sigma)
  {
    set j | 0 <= j < |sigma| && j < bound && Leader(sigma, j) == j
  }

  /** Whether the cycle through `i` is the first, third, fifth, ... cycle the scan in
      increasing order discovers. */
  ghost predicate InOddCycle(sigma: seq<nat>, i: nat)
    requires IsIndexPermutation(sigma) && i < |sigma|
  {
    OddLeader(sigma, Leader(sigma, i))
  }

  /** Whether the cycle led by `leader` is the first, third, fifth, ... one discovered. */
  ghost predicate OddLeader(sigma: seq<nat>, leader: nat)
    requires IsIndexPermutation(sigma)
  {
    |LeadersBelow(sigma, leader + 1)| % 2 == 1
  }

  /** The intended orientation: parent 1's city goes to child 1 on the odd cycles. */
  ghost function AlternatingOrientation<T>(parent1: seq<T>, parent2: seq<T>): (keep: seq<bool>)
    requires IsPermutationOf(parent2, parent1)
    ensures |keep| == |parent1|
  {
    var sigma := Successor(parent1, parent2);
    seq(|parent1|, i requires 0 <= i < |parent1| => InOddCycle(sigma, i))
  }

  /** The two children of cycle crossover with alternating cycles. */
  ghost function AlternatingChildren<T>(parent1: seq<T>, parent2: seq<T>): (seq<T>, seq<T>)
    requires IsPermutationOf(parent2, parent1)
  {
    RoutePair(parent1, parent2);
    var keep := AlternatingOrientation(parent1, parent2);
    (Mix(parent1, parent2, keep), Mix(parent2, parent1, keep))
  }

  /** The alternating orientation at one position. */
  lemma AlternatingAt<T>(parent1: seq<T>, parent2: seq<T>, i: nat)
    requires IsPermutationOf(parent2, parent1) && i < |parent1|
    ensures AlternatingOrientation(parent1, parent2)[i] == InOddCycle(Successor(parent1, parent2), i)
  {
  }

  /** The children of alternating CX position by position. */
  lemma AlternatingChildrenAt<T>(parent1: seq<T>, parent2: seq<T>, i: nat)
    requires IsPermutationOf(parent2, parent1) && i < |parent1|
    ensures |parent2| == |parent1|
    ensures var keep := InOddCycle(Successor(parent1, parent2), i);
      && AlternatingChildren(parent1, parent2).0[i] == (if keep then parent1[i] else parent2[i])
      && AlternatingChildren(parent1, parent2).1[i] == (if keep then parent2[i] else parent1[i])
  {
    RoutePair(parent1, parent2);
    AlternatingAt(parent1, parent2, i);
  }

  /** Position 0 leads its cycle. */
  lemma LeaderOfZero(sigma: seq<nat>)
    requires IsIndexPermutation(sigma) && 0 < |sigma|
    ensures Leader(sigma, 0) == 0
  {
    assert Iterate(sigma, 0, 0) == 0;
  }

  /** A whole cycle is odd or even together. */
  lemma InOddCycleStep(sigma: seq<nat>, i: nat)
    requires IsIndexPermutation(sigma) && i < |sigma|
    ensures InOddCycle(sigma, sigma[i]) == InOddCycle(sigma, i)
  {
    LeaderStep(sigma, i);
  }

  /** The cycle through position 0 is the first one. */
  lemma InOddCycleFirst(sigma: seq<nat>, i: nat)
    requires IsIndexPermutation(sigma) && i < |sigma| && Leader(sigma, i) == 0
    ensures InOddCycle(sigma, i)
  {
    LeaderOfZero(sigma);
    var leaders := LeadersBelow(sigma, 1);
    assert 0 in leaders;
    assert leaders == {0};
  }

  /** Two cycles discovered one right after the other have opposite parities. */
  lemma OddLeaderNext(sigma: seq<nat>, l: nat, m: nat)
    requires IsIndexPermutation(sigma) && l < m < |sigma| && Leader(sigma, m) == m
    requires forall j :: l < j < m ==> Leader(sigma, j) != j
    ensures OddLeader(sigma, m) == !OddLeader(sigma, l)
  {
    LeadersBelowNext(sigma, l, m);
  }

  /** From one cycle leader to the next, one more cycle has been discovered. */
  lemma LeadersBelowNext(sigma: seq<nat>, l: nat, m: nat)
    requires IsIndexPermutation(sigma) && l < m < |sigma| && Leader(sigma, m) == m
    requires forall j :: l < j < m ==> Leader(sigma, j) != j
    ensures |LeadersBelow(sigma, m + 1)| == |LeadersBelow(sigma, l + 1)| + 1
  {
    var before, after := LeadersBelow(sigma, l + 1), LeadersBelow(sigma, m + 1);
    assert m in after && m !in before;
    assert after == before + {m};
  }

  /** The alternating orientation is the same on a position and its successor. */
  lemma AlternatingClosed<T>(parent1: seq<T>, parent2: seq<T>)
    requires IsPermutationOf(parent2, parent1)
    ensures forall i :: 0 <= i < |parent1| ==>
      AlternatingOrientation(parent1, parent2)[Successor(parent1, parent2)[i]]
        == AlternatingOrientation(parent1, parent2)[i]
  {
    var sigma := Successor(parent1, parent2);
    forall i | 0 <= i < |parent1|
      ensures AlternatingOrientation(parent1, parent2)[sigma[i]] == AlternatingOrientation(parent1, parent2)[i]
    {
      InOddCycleStep(sigma, i);
      AlternatingAt(parent1, parent2, i);
      AlternatingAt(parent1, parent2, sigma[i]);
    }
  }

  /** With alternating cycles both children are routes over the parents' cities, and at
      every position the children hold the parents' two cities, one each. */
  lemma AlternatingChildrenAreRoutes<T>(parent1: seq<T>, parent2: seq<T>)
    requires IsPermutationOf(parent2, parent1)
    ensures var (c1, c2) := AlternatingChildren(parent1, parent2);
      && |c1| == |c2| == |parent1| == |parent2|
      && (forall i :: 0 <= i < |parent1| ==>
            (c1[i] == parent1[i] && c2[i] == parent2[i]) || (c1[i] == parent2[i] && c2[i] == parent1[i]))
      && IsPermutationOf(c1, parent1) && IsPermutationOf(c2, parent1)
  {
    RoutePair(parent1, parent2);
    var keep := AlternatingOrientation(parent1, parent2);
    AlternatingClosed(parent1, parent2);
    MixIsRoute(parent1, parent2, keep);
    MixIsRoute(parent1, parent2, Flip(keep));
    MixSwap(parent1, parent2, keep);
  }

  /** The first cycle, the one through position 0, goes from parent 1 to child 1. */
  lemma AlternatingFirstCycle<T>(parent1: seq<T>, parent2: seq<T>, i: nat)
    requires IsPermutationOf(parent2, parent1) && i < |parent1|
    requires Leader(Successor(parent1, parent2), i) == 0
    ensures |parent2| == |parent1|
    ensures AlternatingChildren(parent1, parent2).0[i] == parent1[i]
    ensures AlternatingChildren(parent1, parent2).1[i] == parent2[i]
  {
    InOddCycleFirst(Successor(parent1, parent2), i);
    AlternatingChildrenAt(parent1, parent2, i);
  }

  /** Two cycles discovered one right after the other get opposite orientations. */
  lemma AlternatingNextCycle<T>(parent1: seq<T>, parent2: seq<T>, l: nat, m: nat)
    requires IsPermutationOf(parent2, parent1) && l < m < |parent1|
    requires Leader(Successor(parent1, parent2), l) == l && Leader(Successor(parent1, parent2), m) == m
    requires forall j :: l < j < m ==> Leader(Successor(parent1, parent2), j) != j
    ensures AlternatingOrientation(parent1, parent2)[m] == !AlternatingOrientation(parent1, parent2)[l]
  {
    OddLeaderNext(Successor(parent1, parent2), l, m);
    AlternatingAt(parent1, parent2, l);
    AlternatingAt(parent1, parent2, m);
  }

  /** Parent 2 = [1, 0] against parent 1 = [0, 1]: both positions lie on one cycle. */
  lemma SwapSuccessor(parent1: seq<int>, parent2: seq<int>)
    requires parent1 == [0, 1] && parent2 == [1, 0]
    ensures IsPermutationOf(parent2, parent1)
    ensures Successor(parent1, parent2) == [1, 0]
  {
    assert multiset(parent2) == multiset(parent1);
    var sigma := Successor(parent1, parent2);
    assert parent2[sigma[0]] == 0 && parent2[sigma[1]] == 1;
  }

  /** On the swap of two positions, position 0 leads the only cycle. */
  lemma SwapLeaders(sigma: seq<nat>)
    requires sigma == [1, 0]
    ensures IsIndexPermutation(sigma) && Leader(sigma, 0) == 0 && Leader(sigma, 1) == 0
  {
    LeaderOfZero(sigma);
    assert Iterate(sigma, 1, 1) == 0;
  }

  /** As written, CX keeps parent 2 on the single cycle of the swap, since 2 positions are
      visited when it closes; the alternating rule keeps parent 1. */
  lemma SwapOrientations(sigma: seq<nat>)
    requires sigma == [1, 0]
    ensures IsIndexPermutation(sigma)
    ensures !KeepsParent1(sigma, 0) && !KeepsParent1(sigma, 1)
    ensures InOddCycle(sigma, 0) && InOddCycle(sigma, 1)
  {
    SwapLeaders(sigma);
    assert Discovered(sigma, 1) == {0, 1};
    InOddCycleFirst(sigma, 0);
    InOddCycleFirst(sigma, 1);
  }

  /** As written, parent 1 = [0, 1] against parent 2 = [1, 0] keeps parent 2 everywhere. */
  lemma SwapOrientation(parent1: seq<int>, parent2: seq<int>, i: nat)
    requires parent1 == [0, 1] && parent2 == [1, 0] && i < 2
    ensures IsPermutationOf(parent2, parent1)
    ensures !Orientation(parent1, parent2)[i]
  {
    SwapSuccessor(parent1, parent2);
    SwapOrientations(Successor(parent1, parent2));
    OrientationAt(parent1, parent2, i);
  }

  /** Alternating, parent 1 = [0, 1] against parent 2 = [1, 0] keeps parent 1 everywhere. */
  lemma SwapAlternatingOrientation(parent1: seq<int>, parent2: seq<int>, i: nat)
    requires parent1 == [0, 1] && parent2 == [1, 0] && i < 2
    ensures IsPermutationOf(parent2, parent1)
    ensures AlternatingOrientation(parent1, parent2)[i]
  {
    SwapSuccessor(parent1, parent2);
    SwapOrientations(Successor(parent1, parent2));
    AlternatingAt(parent1, parent2, i);
  }

  /** As written, a route whose positions form a single cycle gives parent 2 back as child 1:
      parent1 = [0, 1] and parent2 = [1, 0] visit both positions in one cycle, whose
      count 2 is even. */
  lemma CycleCrossoverSingleCycle(parent1: seq<int>, parent2: seq<int>)
    requires parent1 == [0, 1] && parent2 == [1, 0]
    ensures IsPermutationOf(parent2, parent1)
    ensures CycleChildren(parent1, parent2) == (parent2, parent1)
  {
    SwapOrientation(parent1, parent2, 0);
    var keep := Orientation(parent1, parent2);
    forall i | 0 <= i < |keep| ensures keep[i] == false {
      SwapOrientation(parent1, parent2, i);
    }
    MixAll(parent1, parent2, keep, false);
    CycleChildrenMix(parent1, parent2);
  }

  /** With alternating cycles the single cycle of the same input comes from parent 1. */
  lemma AlternatingSingleCycle(parent1: seq<int>, parent2: seq<int>)
    requires parent1 == [0, 1] && parent2 == [1, 0]
    ensures IsPermutationOf(parent2, parent1)
    ensures AlternatingChildren(parent1, parent2) == (parent1, parent2)
  {
    SwapAlternatingOrientation(parent1, parent2, 0);
    var keep := AlternatingOrientation(parent1, parent2);
    forall i | 0 <= i < |keep| ensures keep[i] == true {
      SwapAlternatingOrientation(parent1, parent2, i);
    }
    MixAll(parent1, parent2, keep, true);
  }

  /** Mixing with the same orientation everywhere gives one parent to each child. */
  lemma MixAll<T>(first: seq<T>, second: seq<T>, keep: seq<bool>, all: bool)
    requires |first| == |second| == |keep| && forall i :: 0 <= i < |keep| ==> keep[i] == all
    ensures Mix(first, second, keep) == if all then first else second
    ensures Mix(second, first, keep) == if all then second else first
  {
  }

  /** A walk that starts at or above `bound`, under a map that keeps the positions at or
      above `bound` there, never goes below `bound`. */
  lemma {:induction false} IterateStaysAbove(sigma: seq<nat>, i: nat, k: nat, bound: nat)
    requires IsIndexPermutation(sigma) && bound <= i < |sigma|
    requires forall j :: bound <= j < |sigma| ==> sigma[j] >= bound
    ensures Iterate(sigma, i, k) >= bound
  {
    if k > 0 {
      IterateStaysAbove(sigma, i, k - 1, bound);
    }
  }

  /** A sequence of four elements is the display of its entries. */
  lemma SeqOfFour<T>(s: seq<T>, a: T, b: T, c: T, d: T)
    requires |s| == 4 && s[0] == a && s[1] == b && s[2] == c && s[3] == d
    ensures s == [a, b, c, d]
  {
  }

  /** Parent 1 = [0, 1, 2, 3] and parent 2 = [1, 0, 3, 2], written entry by entry. */
  predicate SwappedParents(parent1: seq<int>, parent2: seq<int>) {
    && |parent1| == 4 && parent1[0] == 0 && parent1[1] == 1 && parent1[2] == 2 && parent1[3] == 3
    && |parent2| == 4 && parent2[0] == 1 && parent2[1] == 0 && parent2[2] == 3 && parent2[3] == 2
  }

  /** The successor map [1, 0, 3, 2] of the swapped parents, written entry by entry. */
  ghost predicate SwappedPairs(sigma: seq<nat>) {
    |sigma| == 4 && sigma[0] == 1 && sigma[1] == 0 && sigma[2] == 3 && sigma[3] == 2
  }

  /** Parent 2 = [1, 0, 3, 2] is a route over the cities of parent 1 = [0, 1, 2, 3]. */
  lemma PairsPermutation(parent1: seq<int>, parent2: seq<int>)
    requires SwappedParents(parent1, parent2)
    ensures IsPermutationOf(parent2, parent1)
  {
    assert Distinct(parent1) && Distinct(parent2);
    assert forall x :: x in parent1 <==> x in parent2;
    PermutationBySets(parent2, parent1);
  }

  /** Against parent 1 = [0, 1, 2, 3], parent 2 = [1, 0, 3, 2] forms two cycles, {0, 1}
      and {2, 3}. */
  lemma PairsSuccessor(parent1: seq<int>, parent2: seq<int>)
    requires SwappedParents(parent1, parent2)
    ensures IsPermutationOf(parent2, parent1)
    ensures SwappedPairs(Successor(parent1, parent2))
  {
    PairsPermutation(parent1, parent2);
    var sigma := Successor(parent1, parent2);
    assert parent2[sigma[0]] == 0 && parent2[sigma[1]] == 1;
    assert parent2[sigma[2]] == 2 && parent2[sigma[3]] == 3;
  }

  /** On two swapped pairs, position 0 leads the first cycle and position 2 the second. */
  lemma PairsLeaders(sigma: seq<nat>)
    requires SwappedPairs(sigma)
    ensures IsIndexPermutation(sigma)
    ensures Leader(sigma, 0) == 0 && Leader(sigma, 1) == 0
    ensures Leader(sigma, 2) == 2 && Leader(sigma, 3) == 2
  {
    assert forall j :: 0 <= j < |sigma| ==> sigma[j] < |sigma|;
    assert forall j, k :: 0 <= j < k < |sigma| ==> sigma[j] != sigma[k];
    LeaderOfZero(sigma);
    assert Iterate(sigma, 1, 1) == 0 && Iterate(sigma, 1, 1) in Orbit(sigma, 1);
    assert Iterate(sigma, 2, 0) == 2 && Iterate(sigma, 2, 0) in Orbit(sigma, 2);
    assert Iterate(sigma, 3, 1) == 2 && Iterate(sigma, 3, 1) in Orbit(sigma, 3);
    forall k | 0 <= k < |sigma| ensures Iterate(sigma, 2, k) >= 2 && Iterate(sigma, 3, k) >= 2 {
      IterateStaysAbove(sigma, 2, k, 2);
      IterateStaysAbove(sigma, 3, k, 2);
    }
  }

  /** The positions discovered once the first cycle of the swapped pairs is traced. */
  lemma PairsFirstDiscovered(sigma: seq<nat>)
    requires SwappedPairs(sigma)
    ensures IsIndexPermutation(sigma) && |Discovered(sigma, 1)| == 2
  {
    PairsLeaders(sigma);
    assert Discovered(sigma, 1) == {0, 1};
  }

  /** The positions discovered once the second cycle of the swapped pairs is traced. */
  lemma PairsAllDiscovered(sigma: seq<nat>)
    requires SwappedPairs(sigma)
    ensures IsIndexPermutation(sigma) && |Discovered(sigma, 3)| == 4
  {
    PairsLeaders(sigma);
    assert Discovered(sigma, 3) == {0, 1, 2, 3};
  }

  /** As written, CX keeps parent 2 on both cycles of the swapped pairs: 2 and then 4
      positions are visited when they close, both even. */
  lemma PairsKeepParent2(sigma: seq<nat>, i: nat)
    requires SwappedPairs(sigma) && i < 4
    ensures IsIndexPermutation(sigma) && !KeepsParent1(sigma, i)
  {
    PairsLeaders(sigma);
    PairsFirstDiscovered(sigma);
    PairsAllDiscovered(sigma);
  }

  /** The alternating rule keeps parent 1 on the first cycle of the swapped pairs only. */
  lemma PairsAlternate(sigma: seq<nat>, i: nat)
    requires SwappedPairs(sigma) && i < 4
    ensures IsIndexPermutation(sigma) && InOddCycle(sigma, i) == (i < 2)
  {
    PairsLeaders(sigma);
    if i < 2 {
      InOddCycleFirst(sigma, i);
    } else {
      PairsSecondEven(sigma);
    }
  }

  /** The second cycle of the swapped pairs, led by position 2, is an even one. */
  lemma PairsSecondEven(sigma: seq<nat>)
    requires SwappedPairs(sigma)
    ensures IsIndexPermutation(sigma) && !OddLeader(sigma, 2)
  {
    PairsLeaders(sigma);
    InOddCycleFirst(sigma, 0);
    OddLeaderNext(sigma, 0, 2);
  }

  /** The as-written children of the swapped parents are the parents swapped. */
  lemma PairsCycleChildren(parent1: seq<int>, parent2: seq<int>)
    requires SwappedParents(parent1, parent2)
    ensures IsPermutationOf(parent2, parent1)
    ensures CycleChildren(parent1, parent2) == (parent2, parent1)
  {
    PairsSuccessor(parent1, parent2);
    var keep := Orientation(parent1, parent2);
    forall i | 0 <= i < |keep| ensures keep[i] == false {
      PairsKeepParent2(Successor(parent1, parent2), i);
      OrientationAt(parent1, parent2, i);
    }
    MixAll(parent1, parent2, keep, false);
    CycleChildrenMix(parent1, parent2);
  }

  /** As written, two cycles in a row both go to parent 2: parent1 = [0, 1, 2, 3] and
      parent2 = [1, 0, 3, 2] are crossed into the parents swapped, with no recombination. */
  lemma CycleCrossoverTwoCycles(parent1: seq<int>, parent2: seq<int>)
    requires parent1 == [0, 1, 2, 3] && parent2 == [1, 0, 3, 2]
    ensures IsPermutationOf(parent2, parent1)
    ensures CycleChildren(parent1, parent2) == (parent2, parent1)
  {
    PairsCycleChildren(parent1, parent2);
  }

  /** Alternating CX on the swapped parents, position by position. */
  lemma PairsAlternatingAt(parent1: seq<int>, parent2: seq<int>, i: nat)
    requires SwappedParents(parent1, parent2) && i < 4
    ensures IsPermutationOf(parent2, parent1)
    ensures |AlternatingChildren(parent1, parent2).0| == |AlternatingChildren(parent1, parent2).1| == 4
    ensures AlternatingChildren(parent1, parent2).0[i] == if i < 2 then parent1[i] else parent2[i]
    ensures AlternatingChildren(parent1, parent2).1[i] == if i < 2 then parent2[i] else parent1[i]
  {
    PairsSuccessor(parent1, parent2);
    AlternatingChildrenAreRoutes(parent1, parent2);
    PairsAlternate(Successor(parent1, parent2), i);
    AlternatingChildrenAt(parent1, parent2, i);
  }

  /** The alternating children of the swapped parents: the first cycle from one parent, the
      second from the other. */
  lemma PairsAlternatingChildren(parent1: seq<int>, parent2: seq<int>)
    requires SwappedParents(parent1, parent2)
    ensures IsPermutationOf(parent2, parent1)
    ensures AlternatingChildren(parent1, parent2).0 == [parent1[0], parent1[1], parent2[2], parent2[3]]
    ensures AlternatingChildren(parent1, parent2).1 == [parent2[0], parent2[1], parent1[2], parent1[3]]
  {
    PairsAlternatingAt(parent1, parent2, 0);
    PairsAlternatingAt(parent1, parent2, 1);
    PairsAlternatingAt(parent1, parent2, 2);
    PairsAlternatingAt(parent1, parent2, 3);
    var children := AlternatingChildren(parent1, parent2);
    SeqOfFour(children.0, parent1[0], parent1[1], parent2[2], parent2[3]);
    SeqOfFour(children.1, parent2[0], parent2[1], parent1[2], parent1[3]);
  }

  /** With alternating cycles the same input recombines: child 1 = [0, 1, 3, 2] takes the
      first cycle from parent 1 and the second from parent 2, child 2 = [1, 0, 2, 3] the
      other way round. */
  lemma AlternatingTwoCycles(parent1: seq<int>, parent2: seq<int>)
    requires parent1 == [0, 1, 2, 3] && parent2 == [1, 0, 3, 2]
    ensures IsPermutationOf(parent2, parent1)
    ensures AlternatingChildren(parent1, parent2) == ([0, 1, 3, 2], [1, 0, 2, 3])
  {
    PairsAlternatingChildren(parent1, parent2);
  }

  // ---------------------------------------------------------------------------
  // Order crossover: read the other parent from the second cut point
  // ---------------------------------------------------------------------------

  /** `s` read from index k to its end and then from its start. */
  function Rotate<T>(s: seq<T>, k: nat): (r: seq<T>)
    requires k <= |s|
    ensures |r| == |s| && multiset(r) == multiset(s)
    ensures forall x :: 0 <= x < |s| ==> r[x] == s[if x + k < |s| then x + k else x + k - |s|]
  {
    assert s == s[..k] + s[k..];
    s[k..] + s[..k]
  }

  /** A rotation of a route over the same cities is again one. */
  lemma RotateIsRoute<T>(s: seq<T>, k: nat, route: seq<T>)
    requires IsPermutationOf(s, route) && k <= |s|
    ensures IsPermutationOf(Rotate(s, k), route)
  {
    var r := Rotate(s, k);
    forall a, b | 0 <= a < b < |r| ensures r[a] != r[b] {
    }
  }

  /** The OX1 child as the operator is defined: the cities of `other` missing from `keep`'s
      slice are taken in `other`'s order starting at point2, wrapping around. */
  function OrderChildFromCut<T(==,!new)>(keep: seq<T>, other: seq<T>, point1: nat, point2: nat): (child: seq<T>)
    requires IsPermutationOf(other, keep) && point1 <= point2 <= |keep|
    ensures |child| == |keep|
  {
    RoutePair(keep, other);
    RotateIsRoute(other, point2, keep);
    OrderChild(keep, Rotate(other, point2), point1, point2)
  }

  /** The corrected child is still a route keeping `keep`'s slice in place. */
  lemma OrderChildFromCutIsRoute<T(!new)>(keep: seq<T>, other: seq<T>, point1: nat, point2: nat)
    requires IsPermutationOf(other, keep) && point1 <= point2 <= |keep|
    ensures var child := OrderChildFromCut(keep, other, point1, point2);
      child[point1..point2] == keep[point1..point2] && IsPermutationOf(child, keep)
  {
    RoutePair(keep, other);
    RotateIsRoute(other, point2, keep);
    OrderChildIsRoute(keep, Rotate(other, point2), point1, point2);
  }

  /** Filtering distributes over concatenation. */
  lemma {:induction false} WithoutConcat<T(!new)>(a: seq<T>, b: seq<T>, excluded: seq<T>)
    ensures Without(a + b, excluded) == Without(a, excluded) + Without(b, excluded)
  {
    if b == [] {
      assert a + b == a;
    } else {
      var init, last := b[..|b| - 1], b[|b| - 1];
      ConcatLast(a, b);
      WithoutConcat(a, init, excluded);
      WithoutAppend(a + init, last, excluded);
      WithoutAppend(init, last, excluded);
    }
  }

  /** Splitting off the last element of the second part of a concatenation. */
  lemma ConcatLast<T>(a: seq<T>, b: seq<T>)
    requires b != []
    ensures b == b[..|b| - 1] + [b[|b| - 1]]
    ensures a + b == (a + b[..|b| - 1]) + [b[|b| - 1]]
  {
  }

  /** Filtering by cities that do not occur changes nothing. */
  lemma {:induction false} WithoutDisjoint<T(!new)>(s: seq<T>, excluded: seq<T>)
    requires forall k :: 0 <= k < |s| ==> s[k] !in excluded
    ensures Without(s, excluded) == s
  {
    if s != [] {
      var init, last := s[..|s| - 1], s[|s| - 1];
      assert s == init + [last];
      WithoutDisjoint(init, excluded);
      WithoutAppend(init, last, excluded);
    }
  }

  /** The two parts of a duplicate-free route around a slice share no city with it. */
  lemma DisjointParts<T>(front: seq<T>, slice: seq<T>, back: seq<T>)
    requires Distinct(front + slice + back)
    ensures forall k :: 0 <= k < |front| ==> front[k] !in slice
    ensures forall k :: 0 <= k < |back| ==> back[k] !in slice
  {
    var route := front + slice + back;
    forall k, j | 0 <= k < |front| && 0 <= j < |slice| ensures front[k] != slice[j] {
      assert route[k] == front[k] && route[|front| + j] == slice[j];
    }
    forall k, j | 0 <= k < |back| && 0 <= j < |slice| ensures back[k] != slice[j] {
      assert route[|front| + |slice| + k] == back[k] && route[|front| + j] == slice[j];
    }
  }

  /** Read from the end of the slice onwards, a route without its slice is the part after
      the slice followed by the part before it. */
  lemma WithoutRotated<T(!new)>(front: seq<T>, slice: seq<T>, back: seq<T>)
    requires Distinct(front + slice + back)
    ensures Without(back + (front + slice), slice) == back + front
  {
    DisjointParts(front, slice, back);
    WithoutConcat(back, front + slice, slice);
    WithoutConcat(front, slice, slice);
    WithoutAllOfItself(slice);
    WithoutDisjoint(back, slice);
    WithoutDisjoint(front, slice);
  }

  /** Placing the slice between the part before it and the part after it rebuilds the route. */
  lemma WrapAroundRebuilds<T>(front: seq<T>, slice: seq<T>, back: seq<T>)
    ensures WrapAround(back + front, slice, |back|) == front + slice + back
  {
    var missing := back + front;
    assert missing[|back|..] == front;
    assert missing[..|back|] == back;
  }

  /** With the scan starting at point2, crossing a route with itself gives it back. */
  lemma OrderChildFromCutSameParents<T(!new)>(route: seq<T>, point1: nat, point2: nat)
    requires Distinct(route) && point1 <= point2 <= |route|
    ensures OrderChildFromCut(route, route, point1, point2) == route
  {
    var front, slice, back := route[..point1], route[point1..point2], route[point2..];
    assert route == front + slice + back;
    assert Rotate(route, point2) == back + (front + slice);
    WithoutRotated(front, slice, back);
    WrapAroundRebuilds(front, slice, back);
  }

  /** Scanned from its start, a route without its slice is the part before the slice
      followed by the part after it. */
  lemma WithoutMiddle<T(!new)>(front: seq<T>, slice: seq<T>, back: seq<T>)
    requires Distinct(front + slice + back)
    ensures Without(front + slice + back, slice) == front + back
  {
    DisjointParts(front, slice, back);
    WithoutConcat(front + slice, back, slice);
    WithoutConcat(front, slice, slice);
    WithoutAllOfItself(slice);
    WithoutDisjoint(back, slice);
    WithoutDisjoint(front, slice);
    assert Without(front + slice, slice) == front + [];
    assert front + [] == front;
  }

  /** When the parts before and after the slice are equally long, reading the missing
      cities from the start swaps them. */
  lemma WrapAroundSwaps<T>(front: seq<T>, slice: seq<T>, back: seq<T>)
    requires |front| == |back|
    ensures WrapAround(front + back, slice, |back|) == back + slice + front
  {
    var missing := front + back;
    assert missing[|back|..] == back;
    assert missing[..|back|] == front;
  }

  /** As written, crossing a route with itself at cuts that leave one city on either side of
      the slice swaps those two cities: [0, 1, 2] at cuts 1 and 2 gives [2, 1, 0]. */
  lemma OrderChildFromStart<T(!new)>(route: seq<T>)
    requires |route| == 3 && Distinct(route)
    ensures IsPermutationOf(route, route)
    ensures OrderChild(route, route, 1, 2) == [route[2], route[1], route[0]]
  {
    var front, slice, back := route[..1], route[1..2], route[2..];
    assert route == front + slice + back;
    WithoutMiddle(front, slice, back);
    WrapAroundSwaps(front, slice, back);
  }
}
