/**
  Crossover operators for genetic-algorithm search over routes of the Traveling
  Salesman Problem: single point, cycle crossover (CX) and order crossover (OX1).
  A route is a sequence of cities in which every city occurs once; each operator
  takes two parent routes and returns two child routes. The cut points, which the
  program draws at random, are parameters here.
*/
module CrossoverMethods {
  import opened Wrappers
  import opened Sequences
  import opened IndexCycles

  // ---------------------------------------------------------------------------
  // Single point crossover
  // ---------------------------------------------------------------------------

  /** The slice `s[:k]`: the first `k` elements, or all of `s` when it is shorter. */
  function Take<T>(s: seq<T>, k: nat): seq<T>
  {
    if k <= |s| then s[..k] else s
  }

  /** One child of single point crossover: the first `point` cities of `head`, then the
      cities of `tail` not among them, in the order of `tail`. */
  function SinglePointChild<T(==,!new)>(head: seq<T>, tail: seq<T>, point: nat): seq<T>
  {
    Take(head, point) + Without(tail, Take(head, point))
  }

  /** Single point crossover with cut `point`. Routes shorter than two cities are
      returned unchanged; otherwise the cut lies in 1..n-1. */
  function SinglePointCrossover<T(==,!new)>(parent1: seq<T>, parent2: seq<T>, point: nat): (children: (seq<T>, seq<T>))
    requires |parent1| < 2 || 1 <= point < |parent1|
    ensures |parent1| < 2 ==> children == (parent1, parent2)
    ensures forall x :: x in children.0 ==> x in parent1 || x in parent2
    ensures forall x :: x in children.1 ==> x in parent1 || x in parent2
  {
    if |parent1| < 2 then (parent1, parent2)
    else
      var c1, c2 := SinglePointChild(parent1, parent2, point), SinglePointChild(parent2, parent1, point);
      assert forall x :: x in c1 ==> x in parent1 || x in parent2 by {
        forall x | x in c1 ensures x in parent1 || x in parent2 {
          var pre := Take(parent1, point);
          if x !in pre {
            assert x in Without(parent2, pre);
            assert x in multiset(Without(parent2, pre));
          }
        }
      }
      assert forall x :: x in c2 ==> x in parent1 || x in parent2 by {
        forall x | x in c2 ensures x in parent1 || x in parent2 {
          var pre := Take(parent2, point);
          if x !in pre {
            assert x in Without(parent1, pre);
            assert x in multiset(Without(parent1, pre));
          }
        }
      }
      (c1, c2)
  }

  /** For routes over the same cities and a cut in 1..n-1, the child starting with `head`
      keeps `head`'s first `point` cities in place, continues with the other cities in the
      order of `tail`, and is again a route over the same cities. */
  lemma SinglePointChildIsRoute<T(!new)>(head: seq<T>, tail: seq<T>, point: nat)
    requires IsPermutationOf(tail, head)
    requires 1 <= point < |head|
    ensures var child := SinglePointChild(head, tail, point);
      && |child| == |head|
      && child[..point] == head[..point]
      && child[point..] == Without(tail, head[..point])
      && IsPermutationOf(child, head)
  {
    PermutationSymmetric(tail, head);
    var pre := head[..point];
    var rest := Without(tail, pre);
    var child := SinglePointChild(head, tail, point);
    assert child == pre + rest;
    DistinctSlice(head, 0, point);
    assert head[0..point] == pre;
    WithoutDistinct(tail, pre);
    forall x | x in pre ensures x !in rest {
      assert multiset(rest)[x] == 0;
    }
    DistinctConcat(pre, rest);
    forall x ensures x in child <==> x in head {
      assert x in rest <==> x in multiset(rest);
      if x in head && x !in pre {
        assert x in tail;
        assert x in multiset(tail);
      }
      if x in pre {
        var k :| 0 <= k < |pre| && pre[k] == x;
        assert head[k] == x;
      }
      if x in rest {
        assert x in multiset(tail);
      }
    }
    PermutationBySets(child, head);
    assert child[..point] == pre;
    assert child[point..] == rest;
  }

  /** Both single point children of two routes over the same cities are routes over
      those cities: the first keeps parent 1's prefix, the second parent 2's. */
  lemma SinglePointCrossoverIsRoute<T(!new)>(parent1: seq<T>, parent2: seq<T>, point: nat)
    requires IsPermutationOf(parent2, parent1)
    requires 1 <= point < |parent1|
    ensures var (c1, c2) := SinglePointCrossover(parent1, parent2, point);
      && |c1| == |c2| == |parent1| == |parent2|
      && c1[..point] == parent1[..point] && c1[point..] == Without(parent2, parent1[..point])
      && c2[..point] == parent2[..point] && c2[point..] == Without(parent1, parent2[..point])
      && IsPermutationOf(c1, parent1) && IsPermutationOf(c2, parent1)
  {
    PermutationSymmetric(parent2, parent1);
    SinglePointChildIsRoute(parent1, parent2, point);
    SinglePointChildIsRoute(parent2, parent1, point);
    var c2 := SinglePointChild(parent2, parent1, point);
    assert multiset(c2) == multiset(parent1);
  }

  /** Single point crossover of a route with itself gives back that route twice. */
  lemma SinglePointSameParents<T(!new)>(route: seq<T>, point: nat)
    requires Distinct(route)
    requires |route| < 2 || 1 <= point < |route|
    ensures SinglePointCrossover(route, route, point) == (route, route)
  {
    if |route| >= 2 {
      SinglePointChildIsRoute(route, route, point);
      var rest := Without(route, route[..point]);
      WithoutDistinct(route, route[..point]);
      assert rest == route[point..] by {
        WithoutSuffix(route, point);
      }
      assert route[..point] + route[point..] == route;
    }
  }

  /** Filtering a duplicate-free route by its own prefix leaves the suffix. */
  lemma {:induction false} WithoutSuffix<T(!new)>(route: seq<T>, point: nat)
    requires Distinct(route) && point <= |route|
    ensures Without(route, route[..point]) == route[point..]
  {
    if point == |route| {
      assert route[..point] == route;
      WithoutAllOfItself(route);
    } else {
      var init, last := route[..|route| - 1], route[|route| - 1];
      SplitLast(route, point);
      WithoutSuffix(init, point);
      WithoutAppend(init, last, route[..point]);
    }
  }

  /** Taking the last city off a duplicate-free route below a cut that is not at its end. */
  lemma SplitLast<T>(route: seq<T>, point: nat)
    requires Distinct(route) && point < |route|
    ensures var init, last := route[..|route| - 1], route[|route| - 1];
      && route == init + [last] && Distinct(init) && init[..point] == route[..point]
      && last !in route[..point] && route[point..] == init[point..] + [last]
  {
    var last := route[|route| - 1];
    forall k | 0 <= k < point ensures route[..point][k] != last {
      assert route[..point][k] == route[k];
    }
  }

  lemma WithoutAllOfItself<T(!new)>(s: seq<T>)
    ensures Without(s, s) == []
  {
    var r := Without(s, s);
    WithoutCounts(s, s);
    assert multiset(r) == multiset{};
  }

  // ---------------------------------------------------------------------------
  // Cycle crossover (CX)
  // ---------------------------------------------------------------------------

  /** The dictionary from each element of `s` to its index; a repeated element keeps its
      last index, as a dictionary built in index order does. */
  function IndexMap<T(==,!new)>(s: seq<T>): (m: map<T, nat>)
    ensures forall x :: x in m <==> x in s
    ensures forall x :: x in m ==> m[x] < |s| && s[m[x]] == x
  {
    if s == [] then map[]
    else
      var init := s[..|s| - 1];
      assert forall x :: x in s <==> x in init || x == s[|s| - 1] by {
        assert s == init + [s[|s| - 1]];
      }
      IndexMap(init)[s[|s| - 1] := |s| - 1]
  }

  /** Facts about two routes over the same cities that CX relies on. */
  lemma RoutePair<T>(parent1: seq<T>, parent2: seq<T>)
    requires IsPermutationOf(parent2, parent1)
    ensures |parent1| == |parent2| && Distinct(parent1) && Distinct(parent2)
    ensures forall i :: 0 <= i < |parent1| ==> parent1[i] in parent2
    ensures forall i :: 0 <= i < |parent2| ==> parent2[i] in parent1
  {
    PermutationSymmetric(parent2, parent1);
    forall i | 0 <= i < |parent1| ensures parent1[i] in parent2 {
      assert parent1[i] in parent1;
    }
    forall i | 0 <= i < |parent2| ensures parent2[i] in parent1 {
      assert parent2[i] in parent2;
    }
  }

  /** The cycle step of CX: from position i to the position of `parent1[i]` in `parent2`.
      For two routes over the same cities it permutes the positions. */
  function Successor<T(==)>(parent1: seq<T>, parent2: seq<T>): (sigma: seq<nat>)
    requires IsPermutationOf(parent2, parent1)
    ensures |sigma| == |parent1| == |parent2|
    ensures forall i :: 0 <= i < |parent1| ==> sigma[i] < |parent2| && parent2[sigma[i]] == parent1[i]
    ensures IsIndexPermutation(sigma)
  {
    RoutePair(parent1, parent2);
    var sigma := seq(|parent1|, i requires 0 <= i < |parent1| => PositionOf(parent2, parent1[i]));
    assert Distinct(sigma) by {
      forall a, b | 0 <= a < b < |sigma| ensures sigma[a] != sigma[b] {
        assert parent1[a] != parent1[b];
      }
    }
    sigma
  }

  /** The positions whose cycle the scan of CX has traced once it has tried every start
      below `bound`: the cycles whose smallest position is below `bound`. */
  ghost function Discovered(sigma: seq<nat>, bound: nat): set<nat>
    requires IsIndexPermutation(sigma)
  {
    set j | 0 <= j < |sigma| && Leader(sigma, j) < bound
  }

  /** The orientation CX gives position `i`: parent 1's city goes to child 1 exactly when
      the number of visited positions, right after the cycle through `i` is traced, is odd. */
  ghost predicate KeepsParent1(sigma: seq<nat>, i: nat)
    requires IsIndexPermutation(sigma) && i < |sigma|
  {
    |Discovered(sigma, Leader(sigma, i) + 1)| % 2 == 1
  }

  /** The child that takes `first[i]` where `keep[i]` holds and `second[i]` elsewhere. */
  function Mix<T>(first: seq<T>, second: seq<T>, keep: seq<bool>): (child: seq<T>)
    requires |first| == |second| == |keep|
    ensures |child| == |first|
    ensures forall i :: 0 <= i < |child| ==> child[i] == if keep[i] then first[i] else second[i]
  {
    seq(|first|, i requires 0 <= i < |first| => if keep[i] then first[i] else second[i])
  }

  /** The orientation of every position under CX. */
  ghost function Orientation<T>(parent1: seq<T>, parent2: seq<T>): (keep: seq<bool>)
    requires IsPermutationOf(parent2, parent1)
    ensures |keep| == |parent1|
  {
    var sigma := Successor(parent1, parent2);
    seq(|parent1|, i requires 0 <= i < |parent1| => KeepsParent1(sigma, i))
  }

  /** The two children of cycle crossover, position by position. */
  ghost function CycleChildren<T>(parent1: seq<T>, parent2: seq<T>): (children: (seq<T>, seq<T>))
    requires IsPermutationOf(parent2, parent1)
    ensures |children.0| == |children.1| == |parent1| == |parent2|
    ensures forall i :: 0 <= i < |parent1| ==>
      || (children.0[i] == parent1[i] && children.1[i] == parent2[i])
      || (children.0[i] == parent2[i] && children.1[i] == parent1[i])
  {
    RoutePair(parent1, parent2);
    var keep := Orientation(parent1, parent2);
    (Mix(parent1, parent2, keep), Mix(parent2, parent1, keep))
  }

  /** The CX children mix the parents along the CX orientation. */
  lemma CycleChildrenMix<T>(parent1: seq<T>, parent2: seq<T>)
    requires IsPermutationOf(parent2, parent1)
    ensures |parent1| == |parent2|
    ensures CycleChildren(parent1, parent2)
         == (Mix(parent1, parent2, Orientation(parent1, parent2)), Mix(parent2, parent1, Orientation(parent1, parent2)))
  {
    RoutePair(parent1, parent2);
  }

  /** Mixing two routes over the same cities along an orientation that is constant on
      every cycle of the CX step yields a route over those cities. */
  lemma MixIsRoute<T>(parent1: seq<T>, parent2: seq<T>, keep: seq<bool>)
    requires IsPermutationOf(parent2, parent1) && |keep| == |parent1|
    requires forall i :: 0 <= i < |keep| ==> keep[Successor(parent1, parent2)[i]] == keep[i]
    ensures |parent2| == |parent1|
    ensures IsPermutationOf(Mix(parent1, parent2, keep), parent1)
  {
    RoutePair(parent1, parent2);
    var sigma := Successor(parent1, parent2);
    var child := Mix(parent1, parent2, keep);
    forall a, b | 0 <= a < b < |child| ensures child[a] != child[b] {
      if keep[a] && !keep[b] {
        assert parent2[sigma[a]] == parent1[a];
        assert sigma[a] != b by { assert keep[sigma[a]] == keep[a]; }
      } else if !keep[a] && keep[b] {
        assert parent2[sigma[b]] == parent1[b];
        assert sigma[b] != a by { assert keep[sigma[b]] == keep[b]; }
      }
    }
    forall x ensures x in child <==> x in parent1 {
      if x in parent1 {
        var j :| 0 <= j < |parent1| && parent1[j] == x;
        if !keep[j] {
          assert keep[sigma[j]] == keep[j];
          assert child[sigma[j]] == x;
        } else {
          assert child[j] == x;
        }
      }
      if x in child {
        var j :| 0 <= j < |child| && child[j] == x;
        assert parent1[j] in parent1 && parent2[j] in parent2;
      }
    }
    PermutationBySets(child, parent1);
  }

  /** The orientation of CX is the same at a position and at the next position on its cycle. */
  lemma OrientationConstantOnCycles<T>(parent1: seq<T>, parent2: seq<T>, i: nat)
    requires IsPermutationOf(parent2, parent1) && i < |parent1|
    ensures var sigma := Successor(parent1, parent2);
      && sigma[i] < |parent1|
      && Orientation(parent1, parent2)[sigma[i]] == Orientation(parent1, parent2)[i]
  {
    var sigma := Successor(parent1, parent2);
    KeepsParent1Step(sigma, i);
    OrientationAt(parent1, parent2, i);
    OrientationAt(parent1, parent2, sigma[i]);
  }

  /** The orientation of a position is whether CX keeps parent 1's city there. */
  lemma OrientationAt<T>(parent1: seq<T>, parent2: seq<T>, i: nat)
    requires IsPermutationOf(parent2, parent1) && i < |parent1|
    ensures Orientation(parent1, parent2)[i] == KeepsParent1(Successor(parent1, parent2), i)
  {
  }

  /** Whether CX keeps parent 1's city depends only on the cycle. */
  lemma KeepsParent1Step(sigma: seq<nat>, i: nat)
    requires IsIndexPermutation(sigma) && i < |sigma|
    ensures KeepsParent1(sigma, sigma[i]) == KeepsParent1(sigma, i)
  {
    LeaderStep(sigma, i);
  }

  /** Both CX children of two routes over the same cities are routes over those cities,
      and position by position they hold the two parents' cities, in one order or the other. */
  lemma CycleChildrenAreRoutes<T>(parent1: seq<T>, parent2: seq<T>)
    requires IsPermutationOf(parent2, parent1)
    ensures var (c1, c2) := CycleChildren(parent1, parent2);
      && |c1| == |c2| == |parent1| == |parent2|
      && (forall i :: 0 <= i < |parent1| ==>
            (c1[i] == parent1[i] && c2[i] == parent2[i]) || (c1[i] == parent2[i] && c2[i] == parent1[i]))
      && IsPermutationOf(c1, parent1) && IsPermutationOf(c2, parent1)
  {
    RoutePair(parent1, parent2);
    var keep := Orientation(parent1, parent2);
    OrientationClosed(parent1, parent2);
    MixIsRoute(parent1, parent2, keep);
    MixIsRoute(parent1, parent2, Flip(keep));
    MixSwap(parent1, parent2, keep);
  }

  /** The orientation is the same on a position and its successor. */
  lemma OrientationClosed<T>(parent1: seq<T>, parent2: seq<T>)
    requires IsPermutationOf(parent2, parent1)
    ensures forall i :: 0 <= i < |parent1| ==>
      Orientation(parent1, parent2)[Successor(parent1, parent2)[i]] == Orientation(parent1, parent2)[i]
  {
    forall i | 0 <= i < |parent1|
      ensures Orientation(parent1, parent2)[Successor(parent1, parent2)[i]] == Orientation(parent1, parent2)[i]
    {
      OrientationConstantOnCycles(parent1, parent2, i);
    }
  }

  /** The opposite orientation at every position. */
  function Flip(keep: seq<bool>): (flipped: seq<bool>)
    ensures |flipped| == |keep| && forall i :: 0 <= i < |keep| ==> flipped[i] == !keep[i]
  {
    seq(|keep|, i requires 0 <= i < |keep| => !keep[i])
  }

  /** Mixing with the parents swapped is mixing with the opposite orientation. */
  lemma MixSwap<T>(first: seq<T>, second: seq<T>, keep: seq<bool>)
    requires |first| == |second| == |keep|
    ensures Mix(second, first, keep) == Mix(first, second, Flip(keep))
  {
  }

  /** CX of a route with itself gives back that route twice. */
  lemma CycleSameParents<T>(route: seq<T>)
    requires Distinct(route)
    ensures CycleChildren(route, route) == (route, route)
  {
    var (c1, c2) := CycleChildren(route, route);
    assert c1 == route && c2 == route;
  }

  /** A scan position already visited starts no cycle: the visited set stays as it is. */
  lemma VisitedStart(sigma: seq<nat>, start: nat)
    requires IsIndexPermutation(sigma) && start < |sigma|
    requires start in Discovered(sigma, start)
    ensures Discovered(sigma, start + 1) == Discovered(sigma, start)
  {
    forall j | 0 <= j < |sigma| ensures Leader(sigma, j) != start {
      var m := Leader(sigma, j);
      OrbitOfMember(sigma, j, m);
      LeaderOfSameOrbit(sigma, m, j);
    }
  }

  /** Tracing the cycle through an unvisited start: every traced position has that start
      as its leader, and afterwards the visited set is that of the scan past the start. */
  lemma TracedCycle(sigma: seq<nat>, start: nat, cycle: seq<nat>)
    requires IsIndexPermutation(sigma) && start < |sigma|
    requires start !in Discovered(sigma, start)
    requires forall k {:trigger cycle[k]} :: 0 <= k < |cycle| ==> cycle[k] == Iterate(sigma, start, k)
    requires Iterate(sigma, start, |cycle|) in Discovered(sigma, start) + (set x | x in cycle)
    ensures forall x :: x in cycle ==> x < |sigma| && Leader(sigma, x) == start
    ensures Discovered(sigma, start) + (set x | x in cycle) == Discovered(sigma, start + 1)
  {
    var before := Discovered(sigma, start);
    assert start == Iterate(sigma, start, 0);
    assert Leader(sigma, start) == start;
    forall x | x in cycle ensures x < |sigma| && Leader(sigma, x) == start {
      var k :| 0 <= k < |cycle| && cycle[k] == x;
      OrbitIterate(sigma, start, k);
      LeaderOfSameOrbit(sigma, x, start);
    }
    var len := |cycle|;
    var current := Iterate(sigma, start, len);
    OrbitIterate(sigma, start, len);
    LeaderOfSameOrbit(sigma, current, start);
    var a :| 0 <= a < len && cycle[a] == current;
    var after := Discovered(sigma, start + 1);
    forall j | j in after ensures j in before + (set x | x in cycle) {
      if Leader(sigma, j) == start {
        SameLeaderSameOrbit(sigma, start, j);
        var k :| 0 <= k < |sigma| && j == Iterate(sigma, start, k);
        WalkRepeats(sigma, start, len, a, k);
        var m :| 0 <= m < len && Iterate(sigma, start, k) == Iterate(sigma, start, m);
        assert j == cycle[m];
      }
    }
  }

  /** Slots that hold `target`'s city at the positions in `filled` and are empty elsewhere. */
  ghost predicate FilledOn<T>(slots: seq<Option<T>>, target: seq<T>, filled: set<nat>)
    requires |slots| == |target|
  {
    forall j :: 0 <= j < |slots| ==> slots[j] == if j in filled then Some(target[j]) else None
  }

  /** Once every start has been tried, every position has been visited. */
  lemma DiscoveredAll(sigma: seq<nat>)
    requires IsIndexPermutation(sigma)
    ensures forall j :: 0 <= j < |sigma| ==> j in Discovered(sigma, |sigma|)
  {
  }

  /** Slots filled on every position hold exactly the target. */
  lemma FilledEverywhere<T>(slots: seq<Option<T>>, target: seq<T>, filled: set<nat>)
    requires |slots| == |target| && FilledOn(slots, target, filled)
    requires forall j :: 0 <= j < |slots| ==> j in filled
    ensures forall j :: 0 <= j < |slots| ==> slots[j].Some?
    ensures Unwrap(slots) == target
  {
  }

  /** The cities in slots that are all filled. */
  function Unwrap<T>(slots: seq<Option<T>>): (r: seq<T>)
    requires forall j :: 0 <= j < |slots| ==> slots[j].Some?
    ensures |r| == |slots| && forall j :: 0 <= j < |r| ==> slots[j] == Some(r[j])
  {
    seq(|slots|, j requires 0 <= j < |slots| => slots[j].value)
  }

  /** Looking up parent 1's city in the index of parent 2 takes one step of the CX successor. */
  lemma IndexMapIsSuccessor<T(!new)>(parent1: seq<T>, parent2: seq<T>)
    requires IsPermutationOf(parent2, parent1)
    ensures forall i :: 0 <= i < |parent1| ==>
      parent1[i] in IndexMap(parent2) && IndexMap(parent2)[parent1[i]] == Successor(parent1, parent2)[i]
  {
    RoutePair(parent1, parent2);
    var m, sigma := IndexMap(parent2), Successor(parent1, parent2);
    forall i | 0 <= i < |parent1| ensures parent1[i] in m && m[parent1[i]] == sigma[i] {
      assert parent1[i] in parent2;
      assert parent2[m[parent1[i]]] == parent2[sigma[i]];
    }
  }

  /** The inner loop of CX: from `start`, visit positions along the CX step until
      reaching one already visited; returns the positions in visiting order and the
      enlarged visited set. */
  method TraceCycle<T(==)>(ghost sigma: seq<nat>, parent1: seq<T>, parent2Indices: map<T, nat>,
                           start: nat, visited: set<nat>) returns (cycle: seq<nat>, visitedAfter: set<nat>)
    requires IsIndexPermutation(sigma) && |sigma| == |parent1| && start < |sigma|
    requires forall i :: 0 <= i < |parent1| ==> parent1[i] in parent2Indices && parent2Indices[parent1[i]] == sigma[i]
    ensures forall k {:trigger cycle[k]} :: 0 <= k < |cycle| ==> cycle[k] == Iterate(sigma, start, k)
    ensures visitedAfter == visited + (set x | x in cycle)
    ensures Iterate(sigma, start, |cycle|) in visitedAfter
  {
    var size := |parent1|;
    cycle, visitedAfter := [], visited;
    var current := start;
    while current !in visitedAfter
      invariant current < size && |cycle| <= size
      invariant forall k {:trigger cycle[k]} :: 0 <= k < |cycle| ==> cycle[k] == Iterate(sigma, start, k)
      invariant current == Iterate(sigma, start, |cycle|)
      invariant Distinct(cycle)
      invariant visitedAfter == visited + (set x | x in cycle)
      decreases size - |cycle|
    {
      assert current !in cycle;
      DistinctConcat(cycle, [current]);
      visitedAfter := visitedAfter + {current};
      cycle := cycle + [current];
      var currentValue := parent1[current];
      current := parent2Indices[currentValue];
      DistinctBelow(cycle, size);
    }
  }

  /** Writes the cities of one traced cycle into the children's slots: parent 1's city into
      child 1 and parent 2's into child 2 when `keepParent1` holds, the other way round if not. */
  method AssignCycle<T>(slots1: array<Option<T>>, slots2: array<Option<T>>, parent1: seq<T>, parent2: seq<T>,
                        cycle: seq<nat>, keepParent1: bool)
    requires slots1 != slots2
    requires slots1.Length == slots2.Length == |parent1| == |parent2|
    requires forall k :: 0 <= k < |cycle| ==> cycle[k] < |parent1|
    modifies slots1, slots2
    ensures forall j :: 0 <= j < slots1.Length ==>
      slots1[j] == (if j in cycle then Some(if keepParent1 then parent1[j] else parent2[j]) else old(slots1[j]))
    ensures forall j :: 0 <= j < slots2.Length ==>
      slots2[j] == (if j in cycle then Some(if keepParent1 then parent2[j] else parent1[j]) else old(slots2[j]))
  {
    for t := 0 to |cycle|
      invariant forall j :: 0 <= j < slots1.Length ==>
        slots1[j] == (if j in cycle[..t] then Some(if keepParent1 then parent1[j] else parent2[j]) else old(slots1[j]))
      invariant forall j :: 0 <= j < slots2.Length ==>
        slots2[j] == (if j in cycle[..t] then Some(if keepParent1 then parent2[j] else parent1[j]) else old(slots2[j]))
    {
      var idx := cycle[t];
      assert cycle[..t + 1] == cycle[..t] + [idx];
      if keepParent1 {
        slots1[idx] := Some(parent1[idx]);
        slots2[idx] := Some(parent2[idx]);
      } else {
        slots1[idx] := Some(parent2[idx]);
        slots2[idx] := Some(parent1[idx]);
      }
    }
    assert cycle[..|cycle|] == cycle;
  }

  /** Once the cycle of `start` is traced, every position on it has the orientation given
      by the parity of the number of positions visited so far. */
  lemma CycleOrientation<T>(parent1: seq<T>, parent2: seq<T>, start: nat, cycle: seq<nat>, before: set<nat>)
    requires IsPermutationOf(parent2, parent1) && start < |parent1|
    requires forall x :: x in cycle ==> x < |parent1| && Leader(Successor(parent1, parent2), x) == start
    requires before + (set x | x in cycle) == Discovered(Successor(parent1, parent2), start + 1)
    ensures forall j :: j in cycle ==>
      j < |parent1| && Orientation(parent1, parent2)[j] == (|before + (set x | x in cycle)| % 2 == 1)
  {
    forall j | j in cycle ensures j < |parent1| && Orientation(parent1, parent2)[j] == (|before + (set x | x in cycle)| % 2 == 1) {
      OrientationOfLeader(parent1, parent2, start, j);
    }
  }

  /** The orientation of a position whose cycle has leader `start`. */
  lemma OrientationOfLeader<T>(parent1: seq<T>, parent2: seq<T>, start: nat, j: nat)
    requires IsPermutationOf(parent2, parent1) && j < |parent1|
    requires Leader(Successor(parent1, parent2), j) == start
    ensures Orientation(parent1, parent2)[j] == (|Discovered(Successor(parent1, parent2), start + 1)| % 2 == 1)
  {
    OrientationAt(parent1, parent2, j);
  }

  /** Writing a cycle whose positions all have orientation `parity` extends the positions on
      which the slots agree with the mixed child by that cycle. */
  lemma FilledAfterCycle<T>(first: seq<T>, second: seq<T>, keep: seq<bool>, cycle: seq<nat>, parity: bool,
                            before: set<nat>, was: seq<Option<T>>, now: seq<Option<T>>)
    requires |first| == |second| == |keep| == |was| == |now|
    requires forall j :: j in cycle ==> j < |keep| && keep[j] == parity
    requires FilledOn(was, Mix(first, second, keep), before)
    requires forall j :: 0 <= j < |now| ==>
      now[j] == (if j in cycle then Some(if parity then first[j] else second[j]) else was[j])
    ensures FilledOn(now, Mix(first, second, keep), before + (set x | x in cycle))
  {
  }

  /** Writes a traced cycle whose positions all have orientation `parity` into both children,
      so that the slots hold the mixed children on the positions of that cycle too. */
  method WriteCycle<T>(slots1: array<Option<T>>, slots2: array<Option<T>>, parent1: seq<T>, parent2: seq<T>,
                       ghost keep: seq<bool>, cycle: seq<nat>, parity: bool, ghost before: set<nat>)
    requires slots1 != slots2 && slots1.Length == slots2.Length == |parent1| == |parent2| == |keep|
    requires forall j :: j in cycle ==> j < |keep| && keep[j] == parity
    requires FilledOn(slots1[..], Mix(parent1, parent2, keep), before)
    requires FilledOn(slots2[..], Mix(parent2, parent1, keep), before)
    modifies slots1, slots2
    ensures FilledOn(slots1[..], Mix(parent1, parent2, keep), before + (set x | x in cycle))
    ensures FilledOn(slots2[..], Mix(parent2, parent1, keep), before + (set x | x in cycle))
  {
    forall k | 0 <= k < |cycle| ensures cycle[k] < |parent1| {
      assert cycle[k] in cycle;
    }
    ghost var was1, was2 := slots1[..], slots2[..];
    AssignCycle(slots1, slots2, parent1, parent2, cycle, parity);
    FilledAfterCycle(parent1, parent2, keep, cycle, parity, before, was1, slots1[..]);
    FilledAfterCycle(parent2, parent1, keep, cycle, parity, before, was2, slots2[..]);
  }

  /** One pass of the outer loop of CX from an unvisited `start`: trace its cycle and
      write it into both children, so that the slots hold the children on one more cycle. */
  method CrossCycle<T(==,!new)>(slots1: array<Option<T>>, slots2: array<Option<T>>, parent1: seq<T>, parent2: seq<T>,
                                parent2Indices: map<T, nat>, ghost keep: seq<bool>, start: nat, visited: set<nat>)
    returns (visitedAfter: set<nat>)
    requires IsPermutationOf(parent2, parent1) && keep == Orientation(parent1, parent2)
    requires forall i :: 0 <= i < |parent1| ==>
      parent1[i] in parent2Indices && parent2Indices[parent1[i]] == Successor(parent1, parent2)[i]
    requires slots1 != slots2 && slots1.Length == slots2.Length == |parent1| == |parent2| && start < |parent1|
    requires visited == Discovered(Successor(parent1, parent2), start)
    requires start !in visited
    requires FilledOn(slots1[..], Mix(parent1, parent2, keep), visited)
    requires FilledOn(slots2[..], Mix(parent2, parent1, keep), visited)
    modifies slots1, slots2
    ensures visitedAfter == Discovered(Successor(parent1, parent2), start + 1)
    ensures FilledOn(slots1[..], Mix(parent1, parent2, keep), visitedAfter)
    ensures FilledOn(slots2[..], Mix(parent2, parent1, keep), visitedAfter)
  {
    ghost var sigma := Successor(parent1, parent2);
    var cycle;
    cycle, visitedAfter := TraceCycle(sigma, parent1, parent2Indices, start, visited);
    TracedCycle(sigma, start, cycle);
    CycleOrientation(parent1, parent2, start, cycle, visited);
    WriteCycle(slots1, slots2, parent1, parent2, keep, cycle, |visitedAfter| % 2 == 1, visited);
  }

  /** The main loop of CX: scan the start positions in increasing order, skip those already
      visited, and trace and write the cycle of every other one. Afterwards the slots hold
      the mixed children on every position the scan has visited. */
  method CrossAllCycles<T(==,!new)>(slots1: array<Option<T>>, slots2: array<Option<T>>, parent1: seq<T>, parent2: seq<T>,
                                    ghost keep: seq<bool>)
    requires IsPermutationOf(parent2, parent1) && keep == Orientation(parent1, parent2)
    requires slots1 != slots2 && slots1.Length == slots2.Length == |parent1| == |parent2|
    requires forall j :: 0 <= j < slots1.Length ==> slots1[j].None? && slots2[j].None?
    modifies slots1, slots2
    ensures FilledOn(slots1[..], Mix(parent1, parent2, keep), Discovered(Successor(parent1, parent2), |parent1|))
    ensures FilledOn(slots2[..], Mix(parent2, parent1, keep), Discovered(Successor(parent1, parent2), |parent1|))
  {
    var parent2Indices := IndexMap(parent2);
    IndexMapIsSuccessor(parent1, parent2);
    ghost var sigma := Successor(parent1, parent2);
    var visited: set<nat> := {};
    for start := 0 to |parent1|
      invariant visited == Discovered(sigma, start)
      invariant FilledOn(slots1[..], Mix(parent1, parent2, keep), visited)
      invariant FilledOn(slots2[..], Mix(parent2, parent1, keep), visited)
    {
      if start in visited {
        VisitedStart(sigma, start);
      } else {
        visited := CrossCycle(slots1, slots2, parent1, parent2, parent2Indices, keep, start, visited);
      }
    }
  }

  /** Cycle crossover: trace the cycles of the CX step in order of their smallest position
      and give each whole cycle one orientation, decided by the parity of the number of
      positions visited once that cycle is traced. */
  method CycleCrossover<T(==,!new)>(parent1: seq<T>, parent2: seq<T>) returns (child1: seq<T>, child2: seq<T>)
    requires IsPermutationOf(parent2, parent1)
    ensures (child1, child2) == CycleChildren(parent1, parent2)
  {
    RoutePair(parent1, parent2);
    var size := |parent1|;
    var slots1 := new Option<T>[size](_ => None);
    var slots2 := new Option<T>[size](_ => None);
    ghost var keep := Orientation(parent1, parent2);
    CrossAllCycles(slots1, slots2, parent1, parent2, keep);

    DiscoveredAll(Successor(parent1, parent2));
    var filled1, filled2 := slots1[..], slots2[..];
    FilledEverywhere(filled1, Mix(parent1, parent2, keep), Discovered(Successor(parent1, parent2), size));
    FilledEverywhere(filled2, Mix(parent2, parent1, keep), Discovered(Successor(parent1, parent2), size));
    // The source fills any slot left empty with the other parent's city; the cycles
    // cover every position, so that branch is never taken.
    for i := 0 to size {
      if filled1[i].None? {
        assert false;
      }
      if filled2[i].None? {
        assert false;
      }
    }
    child1 := Unwrap(filled1);
    child2 := Unwrap(filled2);
    CycleChildrenMix(parent1, parent2);
  }

  // ---------------------------------------------------------------------------
  // Order crossover (OX1)
  // ---------------------------------------------------------------------------

  /** The slice placed between the two parts of `missing`: the cities after its first
      `room` go before the slice, the first `room` cities after it. */
  function WrapAround<T>(missing: seq<T>, slice: seq<T>, room: nat): (child: seq<T>)
    requires room <= |missing|
    ensures |child| == |missing| + |slice|
  {
    missing[room..] + slice + missing[..room]
  }

  /** Position by position, `WrapAround` puts the slice at [lo, lo + |slice|) where lo is the
      number of cities after the first `room`, and the city `missing[k]` at position lo +
      |slice| + k for k below `room` and at k - room otherwise. */
  lemma WrapAroundAt<T>(missing: seq<T>, slice: seq<T>, room: nat, x: nat)
    requires room <= |missing| && x < |missing| + |slice|
    ensures var lo := |missing| - room;
      WrapAround(missing, slice, room)[x]
        == if x < lo then missing[room + x]
           else if x < lo + |slice| then slice[x - lo]
           else missing[x - lo - |slice|]
  {
  }

  /** One OX1 child: `keep`'s slice [point1, point2) stays in place; the cities of `other`
      missing from it, in `other`'s order, fill the positions from point2 to the end and
      then, wrapping around, the positions before point1. */
  function OrderChild<T(==,!new)>(keep: seq<T>, other: seq<T>, point1: nat, point2: nat): (child: seq<T>)
    requires IsPermutationOf(other, keep) && point1 <= point2 <= |keep|
    ensures |child| == |keep|
    ensures child[point1..point2] == keep[point1..point2]
  {
    MissingLength(keep, other, point1, point2);
    WrapAroundParts(Without(other, keep[point1..point2]), keep[point1..point2], |keep| - point2);
    WrapAround(Without(other, keep[point1..point2]), keep[point1..point2], |keep| - point2)
  }

  /** The cities of `other` outside `keep`'s slice number n minus the slice's length. */
  lemma MissingLength<T(!new)>(keep: seq<T>, other: seq<T>, point1: nat, point2: nat)
    requires IsPermutationOf(other, keep) && point1 <= point2 <= |keep|
    ensures |Without(other, keep[point1..point2])| == |keep| - (point2 - point1)
  {
    RoutePair(keep, other);
    DistinctSlice(keep, point1, point2);
    var slice := keep[point1..point2];
    forall x | x in slice ensures x in other {
      var k :| 0 <= k < |slice| && slice[k] == x;
      assert keep[point1 + k] == x;
    }
    WithoutLength(other, slice);
  }

  /** How far after point2, cyclically, position `x` lies: the index in the fill order
      of the city written at `x`. */
  function FillOffset(n: nat, point2: nat, x: nat): nat
    requires point2 <= n && x < n
  {
    if x >= point2 then x - point2 else x + n - point2
  }

  /** The content OX1's fill loop has given position `x` once the cities `written` have been
      placed: the slice city inside [point1, point2), a written city at its offset, or empty. */
  function FillSlot<T>(keep: seq<T>, written: seq<T>, point1: nat, point2: nat, x: nat): Option<T>
    requires point1 <= point2 <= |keep| && x < |keep|
  {
    if point1 <= x < point2 then Some(keep[x])
    else
      var offset := FillOffset(|keep|, point2, x);
      if offset < |written| then Some(written[offset]) else None
  }

  /** Position by position, an OX1 child holds the slice city inside the slice and the
      missing city at its fill offset everywhere else. */
  lemma OrderChildAt<T(!new)>(keep: seq<T>, other: seq<T>, point1: nat, point2: nat, x: nat)
    requires IsPermutationOf(other, keep) && point1 <= point2 <= |keep| && x < |keep|
    ensures |Without(other, keep[point1..point2])| == |keep| - (point2 - point1)
    ensures FillSlot(keep, Without(other, keep[point1..point2]), point1, point2, x)
         == Some(OrderChild(keep, other, point1, point2)[x])
  {
    MissingLength(keep, other, point1, point2);
    var n, slice := |keep|, keep[point1..point2];
    WrapAroundAt(Without(other, slice), slice, n - point2, x);
  }

  /** `WrapAround` consists of the back part of `missing`, the slice, and the front part of `missing`. */
  lemma WrapAroundParts<T>(missing: seq<T>, slice: seq<T>, room: nat)
    requires room <= |missing|
    ensures var child, lo := WrapAround(missing, slice, room), |missing| - room;
      && child[..lo] == missing[room..]
      && child[lo..lo + |slice|] == slice
      && child[lo + |slice|..] == missing[..room]
  {
  }

  /** Placing a duplicate-free slice among duplicate-free other cities, none shared, gives a
      route over exactly those cities. */
  lemma WrapAroundIsRoute<T>(missing: seq<T>, slice: seq<T>, room: nat, route: seq<T>)
    requires room <= |missing|
    requires Distinct(missing) && Distinct(slice) && forall x :: x in slice ==> x !in missing
    requires Distinct(route) && forall x :: x in route <==> x in missing || x in slice
    ensures IsPermutationOf(WrapAround(missing, slice, room), route)
  {
    var front, back := missing[room..], missing[..room];
    assert missing == back + front;
    DistinctSlice(missing, 0, room);
    assert missing[0..room] == back;
    DistinctSlice(missing, room, |missing|);
    assert missing[room..|missing|] == front;
    forall x | x in front ensures x !in back {
      var k :| 0 <= k < |front| && front[k] == x;
      assert missing[room + k] == x;
    }
    DistinctConcat(front, slice);
    DistinctConcat(front + slice, back);
    var child := WrapAround(missing, slice, room);
    assert child == front + slice + back;
    forall x ensures x in child <==> x in route {
      assert x in missing <==> x in front || x in back;
    }
    PermutationBySets(child, route);
  }

  /** Both OX1 children keep their own parent's slice in place, and every other position is
      filled from the other parent: the child is again a route over the same cities. */
  lemma OrderChildIsRoute<T(!new)>(keep: seq<T>, other: seq<T>, point1: nat, point2: nat)
    requires IsPermutationOf(other, keep) && point1 <= point2 <= |keep|
    ensures var n, missing := |keep|, Without(other, keep[point1..point2]);
      var child := OrderChild(keep, other, point1, point2);
      && |missing| == n - (point2 - point1)
      && child[point1..point2] == keep[point1..point2]
      && child[point2..] == missing[..n - point2]
      && child[..point1] == missing[n - point2..]
      && IsPermutationOf(child, keep)
  {
    MissingLength(keep, other, point1, point2);
    MissingMembers(keep, other, point1, point2);
    var n, slice := |keep|, keep[point1..point2];
    var missing := Without(other, slice);
    WrapAroundParts(missing, slice, n - point2);
    WrapAroundIsRoute(missing, slice, n - point2, keep);
  }

  /** The cities missing from `keep`'s slice are duplicate-free, disjoint from the slice,
      and together with it make up the route. */
  lemma MissingMembers<T(!new)>(keep: seq<T>, other: seq<T>, point1: nat, point2: nat)
    requires IsPermutationOf(other, keep) && point1 <= point2 <= |keep|
    ensures var slice := keep[point1..point2];
      var missing := Without(other, slice);
      && Distinct(keep) && Distinct(slice) && Distinct(missing)
      && (forall x :: x in slice ==> x !in missing)
      && (forall x :: x in keep <==> x in missing || x in slice)
  {
    RoutePair(keep, other);
    DistinctSlice(keep, point1, point2);
    var slice := keep[point1..point2];
    WithoutDistinct(other, slice);
    forall x ensures x in keep <==> x in Without(other, slice) || x in slice {
      if x in keep && x !in slice {
        assert x in other;
      }
      if x in slice {
        var k :| 0 <= k < |slice| && slice[k] == x;
        assert keep[point1 + k] == x;
      }
    }
  }

  /** The position OX1's fill writes its `offset`-th city to: point2 + offset, modulo n. */
  function FillPosition(n: nat, point2: nat, offset: nat): (x: nat)
    requires point2 < n && offset < n
    ensures x < n
  {
    if point2 + offset < n then point2 + offset else point2 + offset - n
  }

  /** The fill starts at point2 % n, which is point2 itself. */
  lemma FillPositionStart(n: nat, point2: nat)
    requires point2 < n
    ensures point2 % n == FillPosition(n, point2, 0)
  {
  }

  /** Advancing the write position by one modulo n moves to the next fill offset. */
  lemma FillPositionNext(n: nat, point2: nat, offset: nat, x: nat)
    requires point2 < n && offset + 1 < n && x == FillPosition(n, point2, offset)
    ensures (x + 1) % n == FillPosition(n, point2, offset + 1)
  {
    if x + 1 < n {
      assert (x + 1) % n == x + 1;
    } else {
      assert (x + 1) % n == 0;
    }
  }

  /** Writing position and fill offset undo each other outside the slice. */
  lemma FillPositionOffset(n: nat, point1: nat, point2: nat, offset: nat)
    requires point1 < point2 < n && offset < n - (point2 - point1)
    ensures var x := FillPosition(n, point2, offset);
      !(point1 <= x < point2) && FillOffset(n, point2, x) == offset
  {
  }

  /** While the fill is under way, a city occurs in the child exactly when it lies in the
      slice or has already been written. */
  lemma FillSlotsHold<T>(slots: seq<Option<T>>, keep: seq<T>, written: seq<T>, point1: nat, point2: nat, gene: T)
    requires point1 < point2 < |keep| == |slots| && |written| <= |keep| - (point2 - point1)
    requires forall x :: 0 <= x < |slots| ==> slots[x] == FillSlot(keep, written, point1, point2, x)
    ensures Some(gene) in slots <==> gene in keep[point1..point2] || gene in written
  {
    var n := |keep|;
    if gene in keep[point1..point2] {
      var i :| 0 <= i < point2 - point1 && keep[point1..point2][i] == gene;
      assert slots[point1 + i] == Some(gene);
    }
    if gene in written {
      var k :| 0 <= k < |written| && written[k] == gene;
      FillPositionOffset(n, point1, point2, k);
      assert slots[FillPosition(n, point2, k)] == Some(gene);
    }
    if Some(gene) in slots {
      var x :| 0 <= x < n && slots[x] == Some(gene);
      if point1 <= x < point2 {
        assert keep[point1..point2][x - point1] == gene;
      } else {
        assert written[FillOffset(n, point2, x)] == gene;
      }
    }
  }

  /** Writing the next city at the next fill position extends the fill by that city. */
  lemma FillSlotsWrite<T>(slots: seq<Option<T>>, keep: seq<T>, written: seq<T>, point1: nat, point2: nat, gene: T)
    requires point1 < point2 < |keep| == |slots| && |written| < |keep| - (point2 - point1)
    requires forall x :: 0 <= x < |slots| ==> slots[x] == FillSlot(keep, written, point1, point2, x)
    ensures var at := FillPosition(|keep|, point2, |written|);
      forall x :: 0 <= x < |slots| ==>
        slots[at := Some(gene)][x] == FillSlot(keep, written + [gene], point1, point2, x)
  {
    var n, at := |keep|, FillPosition(|keep|, point2, |written|);
    FillPositionOffset(n, point1, point2, |written|);
    forall x | 0 <= x < n ensures slots[at := Some(gene)][x] == FillSlot(keep, written + [gene], point1, point2, x) {
      if x != at && !(point1 <= x < point2) {
        var offset := FillOffset(n, point2, x);
        assert offset != |written| by {
          assert FillPosition(n, point2, offset) == x;
        }
      }
    }
  }

  /** A route's next city is not among the cities taken from before it. */
  lemma NextNotWritten<T(!new)>(parent: seq<T>, k: nat, slice: seq<T>)
    requires Distinct(parent) && k < |parent|
    ensures parent[k] !in Without(parent[..k], slice)
  {
    forall j | 0 <= j < k ensures parent[..k][j] != parent[k] { }
  }

  /** The state of OX1's fill after scanning the first `k` cities of `parent`: the cities
      among them missing from the slice have been written in order from point2 onwards, and
      `current` is the next position to write. */
  ghost predicate FillState<T(!new)>(slots: seq<Option<T>>, keep: seq<T>, parent: seq<T>, point1: nat, point2: nat,
                               k: nat, current: nat)
    requires point1 < point2 < |keep| && k <= |parent|
  {
    var written := Without(parent[..k], keep[point1..point2]);
    && |slots| == |keep|
    && |written| <= |keep| - (point2 - point1)
    && current == FillPosition(|keep|, point2, |written|)
    && forall x :: 0 <= x < |slots| ==> slots[x] == FillSlot(keep, written, point1, point2, x)
  }

  /** The fill before any city is scanned: only the slice is there, and writing starts at point2. */
  lemma FillStart<T(!new)>(slots: seq<Option<T>>, keep: seq<T>, parent: seq<T>, point1: nat, point2: nat)
    requires point1 < point2 < |keep| == |slots|
    requires forall x :: 0 <= x < |slots| ==> slots[x] == if point1 <= x < point2 then Some(keep[x]) else None
    ensures FillState(slots, keep, parent, point1, point2, 0, point2 % |keep|)
  {
    FillPositionStart(|keep|, point2);
    assert parent[..0] == [];
  }

  /** What one fill step knows about the cities written so far: the next city is not among
      them, and scanning it adds it exactly when it lies outside the slice. */
  lemma FillProgress<T(!new)>(keep: seq<T>, parent: seq<T>, point1: nat, point2: nat, k: nat)
    requires IsPermutationOf(parent, keep) && point1 < point2 < |keep| && k < |parent|
    ensures var slice := keep[point1..point2];
      var written, writtenNext := Without(parent[..k], slice), Without(parent[..k + 1], slice);
      && parent[k] !in written
      && |writtenNext| <= |keep| - (point2 - point1)
      && writtenNext == written + (if parent[k] in slice then [] else [parent[k]])
  {
    var slice := keep[point1..point2];
    RoutePair(keep, parent);
    MissingLength(keep, parent, point1, point2);
    WithoutSnoc(parent, k, slice);
    WithoutPrefixShorter(parent, k + 1, slice);
    NextNotWritten(parent, k, slice);
  }

  /** A fill step on a city the child already holds leaves the child and the write position as they are. */
  lemma FillSkip<T(!new)>(slots: seq<Option<T>>, keep: seq<T>, parent: seq<T>, point1: nat, point2: nat,
                          k: nat, current: nat)
    requires IsPermutationOf(parent, keep) && point1 < point2 < |keep| && k < |parent|
    requires FillState(slots, keep, parent, point1, point2, k, current)
    requires Some(parent[k]) in slots
    ensures FillState(slots, keep, parent, point1, point2, k + 1, current)
  {
    var slice := keep[point1..point2];
    var written := Without(parent[..k], slice);
    FillProgress(keep, parent, point1, point2, k);
    FillSlotsHold(slots, keep, written, point1, point2, parent[k]);
    assert Without(parent[..k + 1], slice) == written;
  }

  /** A fill step on a city the child lacks writes it at `current`, which then advances by one modulo n. */
  lemma FillWrite<T(!new)>(slots: seq<Option<T>>, keep: seq<T>, parent: seq<T>, point1: nat, point2: nat,
                           k: nat, current: nat)
    requires IsPermutationOf(parent, keep) && point1 < point2 < |keep| && k < |parent|
    requires FillState(slots, keep, parent, point1, point2, k, current)
    requires Some(parent[k]) !in slots
    ensures current < |slots|
    ensures FillState(slots[current := Some(parent[k])], keep, parent, point1, point2, k + 1, (current + 1) % |keep|)
  {
    var n, slice, gene := |keep|, keep[point1..point2], parent[k];
    var written := Without(parent[..k], slice);
    FillProgress(keep, parent, point1, point2, k);
    FillSlotsHold(slots, keep, written, point1, point2, gene);
    var writtenNext := written + [gene];
    assert Without(parent[..k + 1], slice) == writtenNext;
    FillSlotsWrite(slots, keep, written, point1, point2, gene);
    FillPositionNext(n, point2, |written|, current);
  }

  /** Once every city of `parent` is scanned, the fill has produced the OX1 child. */
  lemma FillDone<T(!new)>(slots: seq<Option<T>>, keep: seq<T>, parent: seq<T>, point1: nat, point2: nat, current: nat)
    requires IsPermutationOf(parent, keep) && point1 < point2 < |keep|
    requires FillState(slots, keep, parent, point1, point2, |parent|, current)
    ensures forall x :: 0 <= x < |slots| ==> slots[x] == Some(OrderChild(keep, parent, point1, point2)[x])
  {
    assert parent[..|parent|] == parent;
    forall x | 0 <= x < |slots| ensures slots[x] == Some(OrderChild(keep, parent, point1, point2)[x]) {
      OrderChildAt(keep, parent, point1, point2, x);
    }
  }

  /** One turn of the loop of `fill_remaining_genes`: the city `parent[k]` is written at
      `currentIdx` when the child does not hold it yet, and the write position then moves
      on by one modulo n; otherwise nothing changes. */
  method FillGene<T(==,!new)>(child: array<Option<T>>, parent: seq<T>, point1: nat, point2: nat,
                              ghost keep: seq<T>, k: nat, currentIdx: nat) returns (nextIdx: nat)
    requires IsPermutationOf(parent, keep) && child.Length == |keep| && point1 < point2 < |keep| && k < |parent|
    requires FillState(child[..], keep, parent, point1, point2, k, currentIdx)
    modifies child
    ensures FillState(child[..], keep, parent, point1, point2, k + 1, nextIdx)
    ensures Some(parent[k]) in old(child[..]) ==> child[..] == old(child[..]) && nextIdx == currentIdx
    ensures Some(parent[k]) !in old(child[..]) ==>
      child[..] == old(child[..])[currentIdx := Some(parent[k])] && nextIdx == (currentIdx + 1) % |keep|
  {
    var size := child.Length;
    var gene := parent[k];
    if Some(gene) !in child[..] {
      FillWrite(child[..], keep, parent, point1, point2, k, currentIdx);
      child[currentIdx] := Some(gene);
      nextIdx := (currentIdx + 1) % size;
    } else {
      FillSkip(child[..], keep, parent, point1, point2, k, currentIdx);
      nextIdx := currentIdx;
    }
  }

  /** The inner `fill_remaining_genes` of OX1: scan `parent` and write each city the child
      does not yet hold into the next free position, starting at point2 and wrapping around
      modulo n. On a child holding only `keep`'s slice it produces the OX1 child. */
  method FillRemainingGenes<T(==,!new)>(child: array<Option<T>>, parent: seq<T>, point1: nat, point2: nat,
                                        ghost keep: seq<T>)
    requires IsPermutationOf(parent, keep) && child.Length == |keep| && point1 < point2 < |keep|
    requires forall x :: 0 <= x < child.Length ==> child[x] == if point1 <= x < point2 then Some(keep[x]) else None
    modifies child
    ensures forall x :: 0 <= x < child.Length ==> child[x] == Some(OrderChild(keep, parent, point1, point2)[x])
  {
    FillStart(child[..], keep, parent, point1, point2);
    var currentIdx: nat := point2 % child.Length;
    for k := 0 to |parent|
      invariant FillState(child[..], keep, parent, point1, point2, k, currentIdx)
    {
      currentIdx := FillGene(child, parent, point1, point2, keep, k, currentIdx);
    }
    FillDone(child[..], keep, parent, point1, point2, currentIdx);
  }

  /** Order crossover with cuts point1 < point2. Routes shorter than two cities are returned
      unchanged; otherwise each child keeps its own parent's slice [point1, point2) and takes
      the rest from the other parent, written from point2 onwards. */
  method Ox1Crossover<T(==,!new)>(parent1: seq<T>, parent2: seq<T>, point1: nat, point2: nat)
    returns (child1: seq<T>, child2: seq<T>)
    requires |parent1| < 2 || (IsPermutationOf(parent2, parent1) && point1 < point2 < |parent1|)
    ensures |parent1| < 2 ==> child1 == parent1 && child2 == parent2
    ensures |parent1| >= 2 ==>
      && IsPermutationOf(parent2, parent1) && IsPermutationOf(parent1, parent2) && point2 <= |parent2|
      && child1 == OrderChild(parent1, parent2, point1, point2)
      && child2 == OrderChild(parent2, parent1, point1, point2)
  {
    var size := |parent1|;
    if size < 2 {
      return parent1, parent2;
    }
    PermutationSymmetric(parent2, parent1);
    var slots1 := new Option<T>[size](_ => None);
    var slots2 := new Option<T>[size](_ => None);
    for i := point1 to point2
      invariant forall x :: 0 <= x < size ==> slots1[x] == if point1 <= x < i then Some(parent1[x]) else None
      invariant forall x :: 0 <= x < size ==> slots2[x] == if point1 <= x < i then Some(parent2[x]) else None
    {
      slots1[i] := Some(parent1[i]);
      slots2[i] := Some(parent2[i]);
    }
    FillRemainingGenes(slots1, parent2, point1, point2, parent1);
    FillRemainingGenes(slots2, parent1, point1, point2, parent2);
    child1 := Unwrap(slots1[..]);
    child2 := Unwrap(slots2[..]);
  }
}
