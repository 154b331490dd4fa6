# Crossover operators and distance-matrix loader of a TSP genetic algorithm, in Dafny

This project models two parts of a genetic algorithm for the Traveling Salesman Problem and
proves properties of them.

The first part is the three crossover operators that breed two child routes from two parent
routes:

- **single-point crossover** keeps a prefix of one parent and appends the other parent's
  remaining cities in order;
- **cycle crossover (CX)** splits the positions into the cycles of the map "position of
  parent 1's city in parent 2" and gives each whole cycle to one parent;
- **order crossover (OX1)** keeps a slice of one parent and writes the other parent's
  missing cities after the slice, wrapping around the end of the route.

The second part is the loader of the distance matrix. It reads the city count from the
first line and names the cities `city_1` .. `city_n`. It demands n further lines and parses
the n-by-n matrix into a dictionary keyed by pairs of city names, leaving out the diagonal.
It rejects a negative or asymmetric off-diagonal distance.

Modules:

- `Wrappers` holds `Option` and `Result`.
- `Sequences` defines routes and the order-preserving filter `Without(s, excluded)`. A route
  is a sequence without duplicates. `IsPermutationOf` is equal multisets plus no
  duplicates. `Without` is the list comprehension `[g for g in s if g not in excluded]`.
- `IndexCycles` is the theory of a permutation `sigma` of the positions `0..n-1`. It covers
  iterating `sigma`, the orbit of a position, and the orbit's `Leader`, its smallest
  position. The leader is the scan index at which CX discovers the cycle.
- `CrossoverMethods` holds the operators as the source writes them:
  - single point as functions;
  - CX as methods over two arrays of `Option<T>` slots, a visited set and a traced cycle;
  - OX1 as methods that copy the slice into arrays of `Option<T>` slots and then run the
    fill loop `fill_remaining_genes` with its wrapping index.
  
  Each method is proved against a specification function (`CycleChildren`, `OrderChild`).
  The properties of those functions are proved as lemmas.
- `CorrectedCrossover` holds the two findings below. It gives the counterexample to each
  operator as written and the corrected operator with its property.
- `LoadDistances` holds `parse_matrix` and the checks of `load_distances`, as methods with
  loops over a dictionary that remembers insertion order. The input is the file's lines,
  already split into integer tokens.

## Model

| member | source | states |
|---|---|---|
| CrossoverMethods.SinglePointCrossover | src/crossover_methods.py:29-37 | a route shorter than 2 is returned with its partner unchanged; every city of either child comes from a parent |
| CrossoverMethods.SinglePointChildIsRoute | src/crossover_methods.py:34 | a child keeps the first parent's prefix up to the cut; its suffix is the other parent without the prefix's cities, in that parent's order; it is a permutation of the first parent |
| CrossoverMethods.SinglePointCrossoverIsRoute | src/crossover_methods.py:29-37 | for a cut 1 <= p < n, both children have length n and keep their own parent's prefix; their suffixes are the other parent filtered; both are permutations of parent 1 |
| CrossoverMethods.SinglePointSameParents | src/crossover_methods.py:29-37 | crossing a route with itself at any valid cut gives the route twice |
| CrossoverMethods.WithoutSuffix | src/crossover_methods.py:34 | removing a route's own prefix from it leaves exactly its suffix |
| CrossoverMethods.WithoutAllOfItself | src/crossover_methods.py:34 | filtering a sequence by itself leaves nothing |
| Sequences.Without | src/crossover_methods.py:34 | the filter keeps exactly the cities of s not in the excluded list, and never grows |
| Sequences.WithoutKeepsOrder | src/crossover_methods.py:34 | the filter keeps the relative order of the cities it keeps |
| Sequences.WithoutLength | src/crossover_methods.py:34 | filtering a route by some of its own cities removes exactly that many |
| CrossoverMethods.IndexMap | src/crossover_methods.py:59 | the map from city to index of parent 2 has exactly parent 2's cities as keys, each mapped to its position |
| CrossoverMethods.Successor | src/crossover_methods.py:59-75 | the step of the cycle walk sends i to the position in parent 2 of parent1[i]; it is a permutation of the positions |
| CrossoverMethods.IndexMapIsSuccessor | src/crossover_methods.py:74-75 | looking parent1[i] up in the index map gives the successor of i |
| IndexCycles.Leader | src/crossover_methods.py:63-75 | the leader of i lies on i's cycle and is its smallest position |
| IndexCycles.LeaderStep | src/crossover_methods.py:74-75 | one step of the walk stays in a cycle with the same leader |
| IndexCycles.Period | src/crossover_methods.py:70-75 | the walk from any position returns to it within n steps, so the inner loop ends |
| IndexCycles.SameLeaderSameOrbit | src/crossover_methods.py:63-75 | two positions with the same leader lie on the same cycle, so the cycles partition the positions |
| CrossoverMethods.TraceCycle | src/crossover_methods.py:67-75 | the traced cycle is the walk from the start, and the visited set grows by exactly its positions; the walk stops on a visited position |
| CrossoverMethods.TracedCycle | src/crossover_methods.py:63-75 | a cycle traced from an unvisited scan index has that index as the leader of all its positions; it completes the positions whose leader is at most that index |
| CrossoverMethods.VisitedStart | src/crossover_methods.py:64-65 | skipping a visited scan index discovers nothing new |
| CrossoverMethods.AssignCycle | src/crossover_methods.py:77-85 | the cycle's positions get (parent1, parent2) or (parent2, parent1) cities; every other slot is unchanged |
| CrossoverMethods.WriteCycle | src/crossover_methods.py:77-85 | after a cycle is written, both children agree with their specification on every visited position |
| CrossoverMethods.CrossCycle | src/crossover_methods.py:64-85 | one step of the scan discovers the positions whose leader is the scan index and fills them correctly |
| CrossoverMethods.CrossAllCycles | src/crossover_methods.py:63-85 | after the scan both children are filled on every position, as the specification says |
| CrossoverMethods.DiscoveredAll | src/crossover_methods.py:63-75 | the scan discovers every position |
| CrossoverMethods.FilledEverywhere | src/crossover_methods.py:87-91 | every slot is filled once all positions are discovered, so the fill loop for empty slots changes nothing |
| CrossoverMethods.CycleChildren | src/crossover_methods.py:77-93 | the CX children, defined by the parity rule: at each position they hold (p1[i], p2[i]) or (p2[i], p1[i]), and both have the parents' length |
| CrossoverMethods.CycleCrossover | src/crossover_methods.py:54-93 | the method returns exactly the CX children: parent 1 where the cycle's orientation keeps it, parent 2 elsewhere, and the reverse for child 2 |
| CrossoverMethods.OrientationConstantOnCycles | src/crossover_methods.py:77-85 | the orientation is the same on a position and its successor, so it is constant on each cycle |
| CrossoverMethods.KeepsParent1Step | src/crossover_methods.py:77-85 | the parity rule gives the same answer one step along the cycle |
| CrossoverMethods.OrientationClosed | src/crossover_methods.py:77-85 | the CX orientation is invariant under the successor map |
| CrossoverMethods.MixIsRoute | src/crossover_methods.py:77-93 | any mix of the parents that is constant on each cycle is a permutation of parent 1 |
| CrossoverMethods.MixSwap | src/crossover_methods.py:80-85 | child 2 is child 1's mix with the parents swapped, which equals the flipped mix |
| CrossoverMethods.CycleChildrenAreRoutes | src/crossover_methods.py:77-93 | at each position the children hold (p1[i], p2[i]) or (p2[i], p1[i]); both children are permutations of parent 1 |
| CrossoverMethods.CycleSameParents | src/crossover_methods.py:54-93 | crossing a route with itself gives the route twice |
| CrossoverMethods.Ox1Crossover | src/crossover_methods.py:107-129 | a route shorter than 2 is returned with its partner unchanged; otherwise the children are the OX1 children of (parent1, parent2) and (parent2, parent1) |
| CrossoverMethods.OrderChild | src/crossover_methods.py:113-127 | the OX1 child, defined by the fill order, has the parent's length and keeps the parent's slice between the cut points |
| CrossoverMethods.OrderChildIsRoute | src/crossover_methods.py:113-127 | the child keeps the slice in place; positions point2..n-1 and then 0..point1-1 hold the other parent's missing cities in that parent's order; the child is a permutation |
| CrossoverMethods.OrderChildAt | src/crossover_methods.py:119-124 | the specification child at x is the slice city inside the slice and the missing city whose turn it is elsewhere |
| CrossoverMethods.MissingMembers | src/crossover_methods.py:121-122 | the cities written by the fill are distinct, avoid the slice, and with the slice make up the whole route |
| CrossoverMethods.MissingLength | src/crossover_methods.py:121-124 | exactly n - (point2 - point1) cities are written, the number of free slots |
| CrossoverMethods.WrapAround | src/crossover_methods.py:120-124 | the child laid out from the slice and the written cities has length n |
| CrossoverMethods.WrapAroundIsRoute | src/crossover_methods.py:120-124 | the wrapped layout of distinct missing cities and the slice is a permutation of the route |
| CrossoverMethods.FillPosition | src/crossover_methods.py:120-124 | the index after `offset` writes, starting at point2 and advancing modulo n, stays below n |
| CrossoverMethods.FillPositionOffset | src/crossover_methods.py:120-124 | the positions written never fall inside the slice, and each write lands at a distinct offset |
| CrossoverMethods.FillStart | src/crossover_methods.py:116-120 | with only the slice copied and the index at point2 mod n, the fill invariant holds before the loop |
| CrossoverMethods.FillProgress | src/crossover_methods.py:121-124 | the next gene was not written before; the written genes grow by it exactly when it is missing from the slice |
| CrossoverMethods.FillSkip | src/crossover_methods.py:122 | a gene already in the child is skipped and the invariant is kept |
| CrossoverMethods.FillWrite | src/crossover_methods.py:122-124 | writing a missing gene at the current index and advancing modulo n keeps the invariant |
| CrossoverMethods.FillGene | src/crossover_methods.py:121-124 | one pass of the fill loop leaves a present gene alone, or writes a missing one at the current index and advances it modulo n; the invariant is kept |
| CrossoverMethods.FillDone | src/crossover_methods.py:119-124 | after the whole parent is scanned every slot holds the specification child |
| CrossoverMethods.FillRemainingGenes | src/crossover_methods.py:119-124 | from the slice alone, the fill leaves every slot holding the OX1 child, without ever overwriting the slice |
| CorrectedCrossover.CycleCrossoverSingleCycle | src/crossover_methods.py:77-85 | on parents [0, 1] and [1, 0], which form one cycle, CX as written returns the parents swapped |
| CorrectedCrossover.SwapOrientation | src/crossover_methods.py:78 | on that input the parity rule gives parent 2 to child 1 at both positions |
| CorrectedCrossover.AlternatingOrientation | src/crossover_methods.py:77-85 | the corrected orientation has one entry per position |
| CorrectedCrossover.AlternatingFirstCycle | src/crossover_methods.py:77-85 | with the correction the cycle through position 0 goes to parent 1 |
| CorrectedCrossover.AlternatingNextCycle | src/crossover_methods.py:77-85 | with the correction consecutive cycles in discovery order get opposite orientations |
| CorrectedCrossover.AlternatingChildrenAreRoutes | src/crossover_methods.py:77-93 | the corrected children hold (p1[i], p2[i]) or (p2[i], p1[i]) at each position and are permutations of parent 1 |
| CorrectedCrossover.AlternatingSingleCycle | src/crossover_methods.py:77-85 | on parents [0, 1] and [1, 0] the corrected operator returns the parents in order |
| CorrectedCrossover.PairsKeepParent2 | src/crossover_methods.py:78 | on parents [0, 1, 2, 3] and [1, 0, 3, 2] the parity rule gives parent 2 to child 1 at every position, since 2 and then 4 positions are visited when the two cycles close |
| CorrectedCrossover.CycleCrossoverTwoCycles | src/crossover_methods.py:77-85 | on parents [0, 1, 2, 3] and [1, 0, 3, 2], which form the cycles {0, 1} and {2, 3}, CX as written returns the parents swapped, with no recombination |
| CorrectedCrossover.PairsAlternate | src/crossover_methods.py:77-85 | on that input the alternating rule gives parent 1 to child 1 on the first cycle only |
| CorrectedCrossover.AlternatingTwoCycles | src/crossover_methods.py:77-85 | on that input the corrected operator returns [0, 1, 3, 2] and [1, 0, 2, 3]: each child takes one cycle from each parent |
| CorrectedCrossover.OrderChildFromStart | src/crossover_methods.py:119-124 | crossing a three-city route with itself with slice [1, 2), as written, returns it reversed |
| CorrectedCrossover.Rotate | src/crossover_methods.py:120-121 | rotating the other parent to start at point2 keeps its length and cities and moves each city by the rotation |
| CorrectedCrossover.RotateIsRoute | src/crossover_methods.py:120-121 | a rotated permutation of a route is again a permutation of it |
| CorrectedCrossover.OrderChildFromCut | src/crossover_methods.py:119-124 | the corrected OX1 child, which reads the other parent from point2 on, has length n |
| CorrectedCrossover.OrderChildFromCutIsRoute | src/crossover_methods.py:113-127 | the corrected child keeps the slice in place and is a permutation of its parent |
| CorrectedCrossover.OrderChildFromCutSameParents | src/crossover_methods.py:113-127 | the corrected OX1 crossing a route with itself gives the route back, for every pair of cuts |
| CorrectedCrossover.WithoutRotated | src/crossover_methods.py:121-122 | filtering the slice out of the rotated route leaves the part after the slice, then the part before it |
| CorrectedCrossover.WrapAroundRebuilds | src/crossover_methods.py:120-124 | laying out that filtered rotation around the slice rebuilds the route |
| CorrectedCrossover.WithoutMiddle | src/crossover_methods.py:121-122 | filtering the slice out of the route itself leaves the part before it, then the part after it |
| CorrectedCrossover.WrapAroundSwaps | src/crossover_methods.py:120-124 | when the free parts have equal length, the unrotated layout swaps them |
| LoadDistances.Put | load_distances.py:37 | storing a key keeps the dictionary well formed; a new key goes last in the order and an existing key keeps its place |
| LoadDistances.CityNames | load_distances.py:68 | there are n names, named city_1 .. city_n in order, and all distinct |
| LoadDistances.Decimal | load_distances.py:68 | the decimal spelling of a number is a non-empty string of digits |
| LoadDistances.DecimalRoundTrip | load_distances.py:68 | reading the decimal spelling back gives the number |
| LoadDistances.CityNameInjective | load_distances.py:68 | different city indices get different names |
| LoadDistances.Rows | load_distances.py:31 | the matrix rows are lines 1 .. n of the file, fewer if the file is shorter; line 0 and trailing lines are ignored |
| LoadDistances.StoreCell | load_distances.py:35-37 | an off-diagonal value is stored under its pair of names; a diagonal one is skipped; the parsing invariant advances one cell |
| LoadDistances.ParsedRow | load_distances.py:31-37 | a completed row moves the parsing invariant to the start of the next row |
| LoadDistances.ParseMatrix | load_distances.py:14-39 | parsing succeeds exactly when every row has n values; otherwise it reports the first bad row, counted from 1; on success every off-diagonal cell read is stored, and only those |
| LoadDistances.CellsReadRows | load_distances.py:35-37 | i full rows of an n-column matrix hold i * (n - 1) off-diagonal cells |
| LoadDistances.ParsedCells | load_distances.py:35-37 | after a square matrix is read, each off-diagonal (i, j) is stored under (city_i, city_j) with row i's j-th value |
| LoadDistances.ParsedKeys | load_distances.py:36 | every key is a pair of two different city names, so the diagonal is never stored |
| LoadDistances.ParsedSquare | load_distances.py:29-39 | the parsed dictionary holds exactly the off-diagonal cells, n * (n - 1) of them |
| LoadDistances.Violation | load_distances.py:77-85 | an entry passes exactly when it is non-negative and its mirror entry exists with the same value; a report names the entry's two cities and is a negative distance exactly when the value is negative |
| LoadDistances.FirstViolation | load_distances.py:77-85 | no report exactly when every entry is non-negative and has an equal mirror entry; a report is the report of the first failing entry: every entry before it passes |
| LoadDistances.CheckDistances | load_distances.py:77-85 | the validation loop returns `FirstViolation` over the insertion order: nothing when every entry passes, otherwise the report of the first failing entry |
| LoadDistances.CellOfKey | load_distances.py:77-85 | every entry is an off-diagonal cell, and its mirror entry holds the mirror cell |
| LoadDistances.PassedIsSymmetric | load_distances.py:77-85 | if every entry passes, the matrix is symmetric and non-negative off the diagonal |
| LoadDistances.PassedCell | load_distances.py:77-85 | if every entry passes, each off-diagonal cell is non-negative and equal to its mirror |
| LoadDistances.SymmetricPasses | load_distances.py:77-85 | if the matrix is symmetric and non-negative off the diagonal, every entry passes |
| LoadDistances.ChecksPass | load_distances.py:77-85 | validation passes exactly when the matrix is symmetric and non-negative off the diagonal |
| LoadDistances.CheckFails | load_distances.py:77-85 | a failed validation names an off-diagonal cell that is negative, or non-negative and different from its mirror |
| LoadDistances.SymmetricDict | load_distances.py:77-85 | the dictionary of an accepted matrix is symmetric with non-negative values |
| LoadDistances.LoadDistances | load_distances.py:67-96 | each error arises exactly when the source raises it, in the source's order of checks: no first line, a first line that is not one value, fewer than n + 1 lines, a matrix row without n values, then a negative or asymmetric entry; a bad row is reported as the first one, counted from 1; only the empty file surfaces as a distance-matrix error (`Kind`), every other failure as a value error; loading succeeds exactly when the matrix is square, symmetric and non-negative off the diagonal; on success the names are city_1 .. city_n and the dictionary holds exactly the n * (n - 1) off-diagonal cells, symmetric and non-negative; a validation failure names an offending cell |
| LoadDistances.AsymmetricIsValueError | load_distances.py:77-92 | as written, the lines [2], [0, 1], [2, 0] fail with a negative or asymmetric entry, raised as a value error where the documentation promises a distance-matrix error |
| LoadDistances.DocumentedKind | load_distances.py:53-59 | the documented class of a failure: a distance-matrix error exactly for an empty file or invalid data (a negative or asymmetric distance); it agrees with the raised class except on invalid data |
| LoadDistances.LoadDistancesDocumented | load_distances.py:53-96 | loading with the documented classes: it succeeds exactly when the source accepts the lines, with the same names and dictionary, and a failure is a distance-matrix error exactly when the file is empty or the square matrix holds a negative or asymmetric distance |

## Left out

- Reading the file is left out: the path join, `open`, `readlines`, and the handling of a
  missing or unreadable file. The model starts from the file's lines already split into
  integer tokens.
- Error messages and the re-wrapping of exceptions are left out. `LoadDistances.Kind`
  records only which exception class each failure surfaces as. It has no contract of its
  own; `LoadDistances.LoadDistances` states which class each failure gets.
- LoadDistances.LoadDistances: follows the code, not the docstring, on the class of a
  validation failure. A negative or asymmetric distance is raised as a value error
  (load_distances.py:77-92), although the docstring (load_distances.py:58-59) promises a
  distance-matrix error. `LoadDistances.LoadDistancesDocumented` models the documented
  classes; see "## Findings".
- The leniency of Python's `int` and `str.split` on whitespace and signs is left out, as is
  a token that is not an integer.
- LoadDistances.LoadDistances: requires a non-negative city count. With a negative count,
  Python's negative slice bounds select a different part of the file, and the model does
  not cover that case.
- LoadDistances.ParseMatrix: requires distinct city names, which `load_distances` always
  passes. The function `parse_matrix` on its own accepts any list of names.
- The random choice of cut points is left out. The cut points are parameters constrained
  as the generator constrains them: `1 <= point < n` for single point, and
  `0 <= point1 < point2 <= n - 1` for OX1.
- CrossoverMethods.CycleCrossover: requires parent 2 to be a permutation of parent 1.
  Otherwise the source's lookup `parent2_indices[current_value]` can fail, and the model
  does not cover that failure.
- CrossoverMethods.Ox1Crossover: for routes of length 2 or more, requires parent 2 to be a
  permutation of parent 1.
- The empty-string placeholder of OX1 is modelled as an empty slot (`None`). A city that
  is itself the empty string is therefore not modelled.
- The Python dictionary's iteration order is modelled as insertion order. Only the first
  failing entry depends on it.
- The conversions between tuples and lists are left out.
- Partially mapped crossover (PMX) is named in the module's description but has no
  implementation in `src/crossover_methods.py`, so there is nothing to model.

## Findings

| source | as written | input that shows it | evidently intended | confidence | as-written member | corrected member |
|---|---|---|---|---|---|---|
| src/crossover_methods.py:77-85 | a cycle's orientation is the parity of the number of positions visited so far, so consecutive cycles can share an orientation and a single cycle goes to parent 2 | parent1 = [0, 1], parent2 = [1, 0]: one cycle of two positions, and the children come out as (parent2, parent1); parent1 = [0, 1, 2, 3], parent2 = [1, 0, 3, 2]: two cycles, 2 and then 4 positions visited, both even, so again (parent2, parent1) | cycle crossover alternates: the first cycle discovered from parent 1, the next from parent 2, and so on | high, not executed | CorrectedCrossover.CycleCrossoverSingleCycle, CorrectedCrossover.CycleCrossoverTwoCycles | CorrectedCrossover.AlternatingNextCycle, CorrectedCrossover.AlternatingTwoCycles |
| src/crossover_methods.py:119-124 | the fill reads the other parent from its first city | a three-city route crossed with itself at cuts 1 and 2 comes back reversed | OX1 reads the other parent from point2 on, wrapping around, so a route crossed with itself comes back unchanged | medium, not executed | CorrectedCrossover.OrderChildFromStart | CorrectedCrossover.OrderChildFromCutSameParents |
| load_distances.py:58-92 | a negative or asymmetric distance raises `ValueError`, which the handler re-raises as `ValueError` | the lines [2], [0, 1], [2, 0]: distance 1 one way and 2 the other, reported as a value error | the docstring's promise: invalid matrix data, such as a negative or non-symmetric distance, raises `DistanceMatrixError` | medium, not executed | LoadDistances.AsymmetricIsValueError | LoadDistances.LoadDistancesDocumented |
