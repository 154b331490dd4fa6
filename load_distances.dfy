/**
  Loading a distance matrix for the Traveling Salesman Problem.

  The file's first line holds the number n of cities; the next n lines hold the rows
  of an n-by-n matrix of integer distances. The loader names the cities "city_1" ..
  "city_n", stores every off-diagonal entry in a dictionary keyed by the pair of city
  names, and rejects a file whose matrix is short, has a row of the wrong length, or
  has a negative or asymmetric off-diagonal entry.

  The file is given here already split into lines of integer tokens.
*/
module LoadDistances {
  import opened Wrappers
  import opened Sequences

  /** A dictionary key: the pair (from city, to city). */
  type Key = (string, string)

  /** A dictionary that remembers the order in which its keys were first inserted, as a
      Python dictionary does. */
  datatype Dict = Dict(entries: map<Key, int>, order: seq<Key>)

  /** The insertion order lists every key exactly once. */
  ghost predicate Valid(d: Dict)
  {
    (forall k :: k in d.entries <==> k in d.order) && Distinct(d.order)
  }

  /** `d[k] = v`: a new key goes to the end of the order, an existing one keeps its place. */
  function Put(d: Dict, k: Key, v: int): (r: Dict)
    requires Valid(d)
    ensures Valid(r) && r.entries == d.entries[k := v]
    ensures r.order == if k in d.entries then d.order else d.order + [k]
  {
    if k in d.entries then Dict(d.entries[k := v], d.order) else Dict(d.entries[k := v], d.order + [k])
  }

  /** Why loading fails. */
  datatype LoadError =
    | EmptyFile                                    // the file has no first line
    | BadHeader                                    // the first line is not one integer
    | TooFewRows(numCities: nat)                   // fewer than n + 1 lines
    | BadRowLength(row: nat, numCities: nat)       // matrix row `row` (from 1) has not n values
    | NegativeDistance(city1: string, city2: string, distance: int)
    | NotSymmetric(city1: string, city2: string)

  /** The exception class each failure surfaces as: the missing first line raises an
      index error, which the loader reports as an unexpected distance-matrix error. */
  datatype ErrorKind = ValueError | DistanceMatrixError

  function Kind(e: LoadError): ErrorKind
  {
    if e.EmptyFile? then DistanceMatrixError else ValueError
  }

  /** The kind the loader's documentation promises: invalid matrix data, a negative or an
      asymmetric distance, is a distance-matrix error, as is the unexpected failure on an
      empty file; the parsing and dimension problems are value errors. It differs from the
      raised `Kind` exactly on the invalid data. */
  function DocumentedKind(e: LoadError): (k: ErrorKind)
    ensures k == DistanceMatrixError <==> e.EmptyFile? || e.NegativeDistance? || e.NotSymmetric?
    ensures k == Kind(e) <==> !(e.NegativeDistance? || e.NotSymmetric?)
  {
    if e.EmptyFile? || e.NegativeDistance? || e.NotSymmetric? then DistanceMatrixError else ValueError
  }

  // ---------------------------------------------------------------------------
  // City names
  // ---------------------------------------------------------------------------

  predicate IsDigits(s: string)
  {
    forall k :: 0 <= k < |s| ==> '0' <= s[k] <= '9'
  }

  function DigitChar(d: nat): (c: char)
    requires d < 10
    ensures '0' <= c <= '9'
  {
    (('0' as int) + d) as char
  }

  function DigitValue(c: char): (d: nat)
    requires '0' <= c <= '9'
    ensures d < 10
  {
    (c as int) - ('0' as int)
  }

  /** The decimal numeral of `n`, without leading zeros. */
  function Decimal(n: nat): (s: string)
    ensures |s| >= 1 && IsDigits(s)
  {
    if n < 10 then [DigitChar(n)] else Decimal(n / 10) + [DigitChar(n % 10)]
  }

  /** The value of a decimal numeral. */
  function ParseDecimal(s: string): nat
    requires IsDigits(s)
  {
    if s == [] then 0 else ParseDecimal(s[..|s| - 1]) * 10 + DigitValue(s[|s| - 1])
  }

  /** Reading a numeral back gives the number it was written from. */
  lemma {:induction false} DecimalRoundTrip(n: nat)
    ensures ParseDecimal(Decimal(n)) == n
  {
    var s := Decimal(n);
    if n < 10 {
      assert s[..0] == [];
    } else {
      DecimalRoundTrip(n / 10);
      assert s[..|s| - 1] == Decimal(n / 10);
      assert DigitValue(s[|s| - 1]) == n % 10;
    }
  }

  /** The name of the city in matrix row and column `i` (from 0). */
  function CityName(i: nat): string
  {
    "city_" + Decimal(i + 1)
  }

  /** Distinct rows have distinct city names. */
  lemma CityNameInjective(i: nat, j: nat)
    ensures CityName(i) == CityName(j) ==> i == j
  {
    if CityName(i) == CityName(j) {
      assert CityName(i)[5..] == Decimal(i + 1);
      assert CityName(j)[5..] == Decimal(j + 1);
      DecimalRoundTrip(i + 1);
      DecimalRoundTrip(j + 1);
    }
  }

  /** The names of the first `n` cities, in row order. */
  function CityNames(n: nat): (names: seq<string>)
    ensures |names| == n && Distinct(names)
    ensures forall i :: 0 <= i < n ==> names[i] == CityName(i)
  {
    var names := seq(n, i requires 0 <= i < n => CityName(i));
    forall a, b | 0 <= a < b < n ensures names[a] != names[b] {
      CityNameInjective(a, b);
    }
    names
  }

  // ---------------------------------------------------------------------------
  // Parsing the matrix
  // ---------------------------------------------------------------------------

  function Min(a: int, b: int): int
  {
    if a < b then a else b
  }

  /** The lines the parser reads: from the second line up to line n + 1, or to the end of
      a shorter file. */
  function Rows(lines: seq<seq<int>>, numCities: nat): (rows: seq<seq<int>>)
    ensures |rows| == if |lines| <= 1 then 0 else Min(|lines| - 1, numCities)
    ensures forall i :: 0 <= i < |rows| ==> rows[i] == lines[i + 1]
  {
    if |lines| <= 1 then [] else lines[1..Min(|lines|, numCities + 1)]
  }

  /** Cell (a, b) comes before cell (i, j) in row-major order. */
  predicate Before(a: nat, b: nat, i: nat, j: nat)
  {
    a < i || (a == i && b < j)
  }

  /** In a duplicate-free sequence the element at index a is found at index a. */
  lemma PositionOfDistinct<T>(s: seq<T>, a: nat)
    requires Distinct(s) && a < |s|
    ensures PositionOf(s, s[a]) == a
  {
  }

  /** The dictionary holds, for every off-diagonal cell (a, b) already read, that cell's
      value under the key (name of a, name of b), and nothing else. The cells read are
      those before (i, j) in row-major order. */
  ghost predicate ParsedUpTo(d: Dict, rows: seq<seq<int>>, names: seq<string>, i: nat, j: nat)
    requires |rows| <= |names| && i <= |rows| && j <= |names|
  {
    && Valid(d)
    && (forall a :: 0 <= a < i ==> |rows[a]| == |names|)
    && CellsStored(d, rows, names, i, j)
    && KeysRead(d, names, i, j)
    && |d.entries| == CellsRead(|names|, i, j)
  }

  /** Every off-diagonal cell before (i, j) is stored under its pair of names. */
  ghost predicate CellsStored(d: Dict, rows: seq<seq<int>>, names: seq<string>, i: nat, j: nat)
    requires |rows| <= |names|
  {
    forall a, b :: 0 <= a < |rows| && 0 <= b < |rows[a]| && b < |names| && a != b && Before(a, b, i, j) ==>
      (names[a], names[b]) in d.entries && d.entries[(names[a], names[b])] == rows[a][b]
  }

  /** Every key is the pair of names of an off-diagonal cell before (i, j). */
  ghost predicate KeysRead(d: Dict, names: seq<string>, i: nat, j: nat)
  {
    forall k :: k in d.entries ==>
      k.0 in names && k.1 in names && k.0 != k.1 && Before(PositionOf(names, k.0), PositionOf(names, k.1), i, j)
  }

  /** The number of off-diagonal cells of an n-column matrix before (i, j), for j <= n. */
  function CellsRead(n: nat, i: nat, j: nat): int
  {
    if i == 0 then j - (if 0 < j then 1 else 0) else CellsRead(n, i - 1, n) + j - (if i < j then 1 else 0)
  }

  /** The dictionary after a whole matrix has been read. */
  ghost predicate ParsedMatrix(d: Dict, rows: seq<seq<int>>, names: seq<string>)
    requires |rows| <= |names|
  {
    ParsedUpTo(d, rows, names, |rows|, 0)
  }

  lemma ParsedStart(rows: seq<seq<int>>, names: seq<string>)
    requires |rows| <= |names|
    ensures ParsedUpTo(Dict(map[], []), rows, names, 0, 0)
  {
  }

  /** The diagonal cell is skipped. */
  lemma ParsedSkip(d: Dict, rows: seq<seq<int>>, names: seq<string>, i: nat)
    requires i < |rows| <= |names| && ParsedUpTo(d, rows, names, i, i)
    ensures ParsedUpTo(d, rows, names, i, i + 1)
  {
    forall a, b | 0 <= a < |rows| && 0 <= b < |rows[a]| && b < |names| && a != b && Before(a, b, i, i + 1)
      ensures Before(a, b, i, i)
    {
    }
    forall k | k in d.entries
      ensures Before(PositionOf(names, k.0), PositionOf(names, k.1), i, i + 1)
    {
    }
  }

  /** An off-diagonal cell is stored under a key not stored before. */
  lemma ParsedPut(d: Dict, rows: seq<seq<int>>, names: seq<string>, i: nat, j: nat)
    requires i < |rows| <= |names| && j < |names| && i != j && Distinct(names)
    requires |rows[i]| == |names| && ParsedUpTo(d, rows, names, i, j)
    ensures ParsedUpTo(Put(d, (names[i], names[j]), rows[i][j]), rows, names, i, j + 1)
  {
    var key := (names[i], names[j]);
    NewKey(d, names, i, j);
    var e := Put(d, key, rows[i][j]);
    PutStored(d, e, rows, names, i, j);
    PutKeys(d, e, names, i, j, rows[i][j]);
  }

  /** The key of cell (i, j) is not among the keys of the cells before it. */
  lemma NewKey(d: Dict, names: seq<string>, i: nat, j: nat)
    requires i < |names| && j < |names| && Distinct(names) && KeysRead(d, names, i, j)
    ensures (names[i], names[j]) !in d.entries
  {
    PositionOfDistinct(names, i);
    PositionOfDistinct(names, j);
  }

  lemma PutStored(d: Dict, e: Dict, rows: seq<seq<int>>, names: seq<string>, i: nat, j: nat)
    requires i < |rows| <= |names| && j < |rows[i]| && j < |names| && Distinct(names)
    requires e.entries == d.entries[(names[i], names[j]) := rows[i][j]]
    requires CellsStored(d, rows, names, i, j)
    ensures CellsStored(e, rows, names, i, j + 1)
  {
    forall a, b | 0 <= a < |rows| && 0 <= b < |rows[a]| && b < |names| && a != b && Before(a, b, i, j + 1)
      ensures (names[a], names[b]) in e.entries && e.entries[(names[a], names[b])] == rows[a][b]
    {
      if a != i || b != j {
        assert Before(a, b, i, j);
        assert names[a] != names[i] || names[b] != names[j];
      }
    }
  }

  lemma PutKeys(d: Dict, e: Dict, names: seq<string>, i: nat, j: nat, v: int)
    requires i < |names| && j < |names| && i != j && Distinct(names)
    requires e.entries == d.entries[(names[i], names[j]) := v]
    requires KeysRead(d, names, i, j)
    ensures KeysRead(e, names, i, j + 1)
  {
    PositionOfDistinct(names, i);
    PositionOfDistinct(names, j);
  }

  /** At the end of a row of the right length the next row begins. */
  lemma ParsedRow(d: Dict, rows: seq<seq<int>>, names: seq<string>, i: nat)
    requires i < |rows| <= |names| && |rows[i]| == |names| && ParsedUpTo(d, rows, names, i, |names|)
    ensures ParsedUpTo(d, rows, names, i + 1, 0)
  {
    forall a, b | 0 <= a < |rows| && 0 <= b < |rows[a]| && b < |names| && a != b && Before(a, b, i + 1, 0)
      ensures Before(a, b, i, |names|)
    {
    }
    forall k | k in d.entries
      ensures Before(PositionOf(names, k.0), PositionOf(names, k.1), i + 1, 0)
    {
    }
  }

  /** One turn of the inner loop of `parse_matrix`: an off-diagonal value is stored under
      the pair of city names, the diagonal one is skipped. */
  method StoreCell(d: Dict, rows: seq<seq<int>>, cityNames: seq<string>, i: nat, j: nat) returns (e: Dict)
    requires i < |rows| <= |cityNames| && j < |cityNames| && Distinct(cityNames)
    requires |rows[i]| == |cityNames| && ParsedUpTo(d, rows, cityNames, i, j)
    ensures ParsedUpTo(e, rows, cityNames, i, j + 1)
    ensures e == if i != j then Put(d, (cityNames[i], cityNames[j]), rows[i][j]) else d
  {
    if i != j {
      ParsedPut(d, rows, cityNames, i, j);
      e := Put(d, (cityNames[i], cityNames[j]), rows[i][j]);
    } else {
      ParsedSkip(d, rows, cityNames, i);
      e := d;
    }
  }

  /** `parse_matrix`: read each of the rows, reject the first one that does not hold
      exactly n values, and store every off-diagonal value under its pair of city names. */
  method ParseMatrix(lines: seq<seq<int>>, numCities: nat, cityNames: seq<string>) returns (r: Result<Dict, LoadError>)
    requires |cityNames| == numCities && Distinct(cityNames)
    ensures var rows := Rows(lines, numCities);
      r.Success? <==> forall i :: 0 <= i < |rows| ==> |rows[i]| == numCities
    ensures var rows := Rows(lines, numCities);
      r.Failure? ==>
        && r.error.BadRowLength? && r.error.numCities == numCities
        && 1 <= r.error.row <= |rows| && |rows[r.error.row - 1]| != numCities
        && (forall i :: 0 <= i < r.error.row - 1 ==> |rows[i]| == numCities)
    ensures r.Success? ==> ParsedMatrix(r.value, Rows(lines, numCities), cityNames)
  {
    var rows := Rows(lines, numCities);
    var d := Dict(map[], []);
    ParsedStart(rows, cityNames);
    for i := 0 to |rows|
      invariant ParsedUpTo(d, rows, cityNames, i, 0)
    {
      var values := rows[i];
      if |values| != numCities {
        return Failure(BadRowLength(i + 1, numCities));
      }
      for j := 0 to |values|
        invariant ParsedUpTo(d, rows, cityNames, i, j)
      {
        d := StoreCell(d, rows, cityNames, i, j);
      }
      ParsedRow(d, rows, cityNames, i);
    }
    return Success(d);
  }

  // ---------------------------------------------------------------------------
  // Validating the distances
  // ---------------------------------------------------------------------------

  /** What the check of one dictionary entry reports: a negative distance first, then a
      reverse entry that is missing or different. */
  function Violation(d: Dict, k: Key): (r: Option<LoadError>)
    requires k in d.entries
    ensures r.None? <==> d.entries[k] >= 0 && (k.1, k.0) in d.entries && d.entries[(k.1, k.0)] == d.entries[k]
    ensures r.Some? ==> r.value.NegativeDistance? || r.value.NotSymmetric?
    ensures r.Some? ==> r.value.city1 == k.0 && r.value.city2 == k.1
    ensures r.Some? ==> (r.value.NegativeDistance? <==> d.entries[k] < 0)
    ensures r.Some? && r.value.NegativeDistance? ==> r.value.distance == d.entries[k]
  {
    var dist := d.entries[k];
    if dist < 0 then Some(NegativeDistance(k.0, k.1, dist))
    else if (k.1, k.0) !in d.entries || d.entries[(k.1, k.0)] != dist then Some(NotSymmetric(k.0, k.1))
    else None
  }

  /** The report for the first entry, in `keys` order, that fails its check. */
  function FirstViolation(d: Dict, keys: seq<Key>): (r: Option<LoadError>)
    requires forall k :: k in keys ==> k in d.entries
    ensures r.None? <==> forall k :: k in keys ==> Violation(d, k).None?
    ensures r.Some? ==> exists k :: k in keys && Violation(d, k) == r
    ensures r.Some? ==> exists i :: FirstFailingAt(d, keys, i) && Violation(d, keys[i]) == r
  {
    if keys == [] then None
    else if Violation(d, keys[0]).Some? then
      assert FirstFailingAt(d, keys, 0);
      Violation(d, keys[0])
    else
      var r := FirstViolation(d, keys[1..]);
      assert forall k :: k in keys ==> k == keys[0] || k in keys[1..];
      FirstFailingShift(d, keys);
      r
  }

  /** Entry i of `keys` fails its check and every entry before it passes. */
  ghost predicate FirstFailingAt(d: Dict, keys: seq<Key>, i: int)
    requires forall k :: k in keys ==> k in d.entries
  {
    && 0 <= i < |keys| && Violation(d, keys[i]).Some?
    && forall j :: 0 <= j < i ==> Violation(d, keys[j]).None?
  }

  /** After a passing first entry, the first failure of the rest is the first failure of
      the whole sequence, one place later. */
  lemma FirstFailingShift(d: Dict, keys: seq<Key>)
    requires forall k :: k in keys ==> k in d.entries
    requires |keys| > 0 && Violation(d, keys[0]).None?
    ensures forall i :: FirstFailingAt(d, keys[1..], i) ==>
      FirstFailingAt(d, keys, i + 1) && Violation(d, keys[i + 1]) == Violation(d, keys[1..][i])
  {
    forall i | FirstFailingAt(d, keys[1..], i)
      ensures FirstFailingAt(d, keys, i + 1) && Violation(d, keys[i + 1]) == Violation(d, keys[1..][i])
    {
      forall j | 0 <= j < i + 1 ensures Violation(d, keys[j]).None? {
        if j > 0 {
          assert keys[j] == keys[1..][j - 1];
        }
      }
    }
  }

  /** The validation loop of `load_distances`: scan the entries in insertion order and
      report the first one that is negative or has no equal reverse entry. */
  method CheckDistances(d: Dict) returns (r: Option<LoadError>)
    requires Valid(d)
    ensures r == FirstViolation(d, d.order)
  {
    for p := 0 to |d.order|
      invariant FirstViolation(d, d.order) == FirstViolation(d, d.order[p..])
    {
      assert d.order[p..][1..] == d.order[p + 1..];
      var (city1, city2) := d.order[p];
      var dist := d.entries[(city1, city2)];
      if dist < 0 {
        return Some(NegativeDistance(city1, city2, dist));
      }
      if (city2, city1) !in d.entries || d.entries[(city2, city1)] != dist {
        return Some(NotSymmetric(city1, city2));
      }
    }
    assert d.order[|d.order|..] == [];
    return None;
  }

  // ---------------------------------------------------------------------------
  // Loading
  // ---------------------------------------------------------------------------

  /** n rows of n values each. */
  ghost predicate SquareMatrix(rows: seq<seq<int>>, n: nat)
  {
    |rows| == n && forall i :: 0 <= i < n ==> |rows[i]| == n
  }

  /** Every off-diagonal value is non-negative and equal to its mirror image. */
  ghost predicate SymmetricNonNegative(rows: seq<seq<int>>, n: nat)
    requires SquareMatrix(rows, n)
  {
    forall i, j {:trigger rows[i][j]} :: 0 <= i < n && 0 <= j < n && i != j ==> rows[i][j] >= 0 && rows[i][j] == rows[j][i]
  }

  /** The number of off-diagonal cells in the first i full rows of an n-column matrix. */
  lemma {:induction false} CellsReadRows(n: nat, i: nat)
    requires i <= n
    ensures CellsRead(n, i, 0) == i * (n - 1)
  {
    if i > 0 {
      CellsReadRows(n, i - 1);
      assert CellsRead(n, i, 0) == CellsRead(n, i - 1, n);
      assert CellsRead(n, i - 1, n) == CellsRead(n, i - 1, 0) + n - 1 by {
        if i - 1 > 0 {
          assert CellsRead(n, i - 1, 0) == CellsRead(n, i - 2, n);
        }
      }
    }
  }

  /** Every off-diagonal cell of the square matrix is stored under its pair of names. */
  ghost predicate HoldsCells(d: Dict, rows: seq<seq<int>>, names: seq<string>)
    requires SquareMatrix(rows, |names|)
  {
    forall i, j :: 0 <= i < |names| && 0 <= j < |names| && i != j ==>
      (names[i], names[j]) in d.entries && d.entries[(names[i], names[j])] == rows[i][j]
  }

  /** Every key is a pair of two different city names. */
  ghost predicate OffDiagonalKeys(d: Dict, names: seq<string>)
  {
    forall k :: k in d.entries ==> k.0 in names && k.1 in names && k.0 != k.1
  }

  /** After a square matrix has been read, the dictionary holds its off-diagonal cells. */
  lemma ParsedCells(d: Dict, rows: seq<seq<int>>, names: seq<string>)
    requires SquareMatrix(rows, |names|) && CellsStored(d, rows, names, |rows|, 0)
    ensures HoldsCells(d, rows, names)
  {
    forall i, j | 0 <= i < |names| && 0 <= j < |names| && i != j
      ensures (names[i], names[j]) in d.entries && d.entries[(names[i], names[j])] == rows[i][j]
    {
      assert Before(i, j, |rows|, 0);
    }
  }

  /** After a square matrix has been read, every key is a pair of two different names. */
  lemma ParsedKeys(d: Dict, names: seq<string>, i: nat, j: nat)
    requires KeysRead(d, names, i, j)
    ensures OffDiagonalKeys(d, names)
  {
  }

  /** Every value is non-negative and stored under the mirrored key too. */
  ghost predicate SymmetricEntries(d: Dict)
  {
    forall k :: k in d.entries ==> d.entries[k] >= 0 && (k.1, k.0) in d.entries && d.entries[(k.1, k.0)] == d.entries[k]
  }

  /** The dictionary built from a square matrix: exactly its off-diagonal cells, n * (n - 1)
      of them, under their pairs of names. */
  ghost predicate DistanceDict(d: Dict, rows: seq<seq<int>>, names: seq<string>)
    requires SquareMatrix(rows, |names|)
  {
    HoldsCells(d, rows, names) && OffDiagonalKeys(d, names) && |d.entries| == |names| * (|names| - 1)
  }

  /** The cell (i, j) is off the diagonal and the error reports it: as a negative distance,
      or as differing from its mirror image. */
  ghost predicate BadCell(rows: seq<seq<int>>, names: seq<string>, i: int, j: int, e: LoadError)
    requires SquareMatrix(rows, |names|)
  {
    && 0 <= i < |names| && 0 <= j < |names| && i != j
    && ((rows[i][j] < 0 && e == NegativeDistance(names[i], names[j], rows[i][j]))
        || (rows[i][j] >= 0 && rows[i][j] != rows[j][i] && e == NotSymmetric(names[i], names[j])))
  }

  /** After a square matrix has been read, the dictionary holds only off-diagonal cells,
      n * (n - 1) of them. */
  lemma ParsedSquare(d: Dict, rows: seq<seq<int>>, names: seq<string>)
    requires SquareMatrix(rows, |names|) && ParsedMatrix(d, rows, names)
    ensures DistanceDict(d, rows, names)
  {
    ParsedCells(d, rows, names);
    ParsedKeys(d, names, |rows|, 0);
    CellsReadRows(|names|, |names|);
  }

  /** Every dictionary entry passes its check exactly when the matrix is symmetric with
      non-negative off-diagonal values. */
  lemma ChecksPass(d: Dict, rows: seq<seq<int>>, names: seq<string>)
    requires SquareMatrix(rows, |names|) && Valid(d) && Distinct(names)
    requires HoldsCells(d, rows, names) && OffDiagonalKeys(d, names)
    ensures FirstViolation(d, d.order).None? <==> SymmetricNonNegative(rows, |names|)
  {
    if FirstViolation(d, d.order).None? {
      PassedIsSymmetric(d, rows, names);
    }
    if SymmetricNonNegative(rows, |names|) {
      SymmetricPasses(d, rows, names);
    }
  }

  /** Entries that all pass their check come from a symmetric non-negative matrix. */
  lemma PassedIsSymmetric(d: Dict, rows: seq<seq<int>>, names: seq<string>)
    requires SquareMatrix(rows, |names|) && Valid(d)
    requires HoldsCells(d, rows, names)
    requires forall k :: k in d.order ==> Violation(d, k).None?
    ensures SymmetricNonNegative(rows, |names|)
  {
    var n := |names|;
    forall i, j {:trigger rows[i][j]} | 0 <= i < n && 0 <= j < n && i != j
      ensures rows[i][j] >= 0 && rows[i][j] == rows[j][i]
    {
      PassedCell(d, rows, names, i, j);
    }
    CellsAreSymmetric(rows, n);
  }

  /** A square matrix whose off-diagonal cells are each non-negative and equal to their
      mirror is symmetric and non-negative. */
  lemma CellsAreSymmetric(rows: seq<seq<int>>, n: nat)
    requires SquareMatrix(rows, n)
    requires forall i, j {:trigger rows[i][j]} :: 0 <= i < n && 0 <= j < n && i != j ==> rows[i][j] >= 0 && rows[i][j] == rows[j][i]
    ensures SymmetricNonNegative(rows, n)
  {
  }

  /** One cell of a matrix whose entries all pass their check: it is non-negative and equal
      to its mirror. */
  lemma PassedCell(d: Dict, rows: seq<seq<int>>, names: seq<string>, i: nat, j: nat)
    requires SquareMatrix(rows, |names|) && Valid(d)
    requires HoldsCells(d, rows, names)
    requires forall k :: k in d.order ==> Violation(d, k).None?
    requires i < |names| && j < |names| && i != j
    ensures rows[i][j] >= 0 && rows[i][j] == rows[j][i]
  {
    var k := (names[i], names[j]);
    assert k in d.entries && d.entries[k] == rows[i][j];
    assert (k.1, k.0) in d.entries && d.entries[(k.1, k.0)] == rows[j][i];
    assert k in d.order;
    assert Violation(d, k).None?;
  }

  /** The entries of a symmetric non-negative matrix all pass their check. */
  lemma SymmetricPasses(d: Dict, rows: seq<seq<int>>, names: seq<string>)
    requires SquareMatrix(rows, |names|) && Valid(d) && Distinct(names)
    requires HoldsCells(d, rows, names) && OffDiagonalKeys(d, names)
    requires SymmetricNonNegative(rows, |names|)
    ensures forall k :: k in d.order ==> Violation(d, k).None?
  {
    forall k | k in d.order ensures Violation(d, k).None? {
      var a, b := CellOfKey(d, rows, names, k);
      assert rows[a][b] >= 0 && rows[a][b] == rows[b][a];
    }
  }

  /** A key names an off-diagonal cell, and its mirror key is stored too. */
  lemma CellOfKey(d: Dict, rows: seq<seq<int>>, names: seq<string>, k: Key) returns (a: nat, b: nat)
    requires SquareMatrix(rows, |names|) && Distinct(names)
    requires HoldsCells(d, rows, names) && OffDiagonalKeys(d, names) && k in d.entries
    ensures a < |names| && b < |names| && a != b && k == (names[a], names[b])
    ensures d.entries[k] == rows[a][b] && (k.1, k.0) in d.entries && d.entries[(k.1, k.0)] == rows[b][a]
  {
    a, b := PositionOf(names, k.0), PositionOf(names, k.1);
    assert k == (names[a], names[b]) && (k.1, k.0) == (names[b], names[a]);
  }

  /** A failed check names an off-diagonal cell that is negative, or that differs from its
      mirror image. */
  lemma CheckFails(d: Dict, rows: seq<seq<int>>, names: seq<string>)
    requires SquareMatrix(rows, |names|) && Valid(d) && Distinct(names)
    requires HoldsCells(d, rows, names) && OffDiagonalKeys(d, names)
    requires FirstViolation(d, d.order).Some?
    ensures exists i, j :: BadCell(rows, names, i, j, FirstViolation(d, d.order).value)
  {
    var k :| k in d.order && Violation(d, k) == FirstViolation(d, d.order);
    var a, b := CellOfKey(d, rows, names, k);
    assert BadCell(rows, names, a, b, Violation(d, k).value);
  }

  /** The dictionary of a symmetric matrix with non-negative off-diagonal values is
      symmetric with non-negative values. */
  lemma SymmetricDict(d: Dict, rows: seq<seq<int>>, names: seq<string>)
    requires SquareMatrix(rows, |names|) && Distinct(names)
    requires HoldsCells(d, rows, names) && OffDiagonalKeys(d, names) && SymmetricNonNegative(rows, |names|)
    ensures SymmetricEntries(d)
  {
    forall k | k in d.entries ensures d.entries[k] >= 0 && (k.1, k.0) in d.entries && d.entries[(k.1, k.0)] == d.entries[k] {
      var a, b := CellOfKey(d, rows, names, k);
    }
  }

  /** The first line holds exactly one value, the city count. */
  ghost predicate HeaderRead(lines: seq<seq<int>>)
  {
    |lines| > 0 && |lines[0]| == 1
  }

  /** The header is read and the file has a line for each of the n matrix rows. */
  ghost predicate EnoughRows(lines: seq<seq<int>>)
  {
    HeaderRead(lines) && |lines| >= lines[0][0] + 1
  }

  /** The file is accepted: a header holding the city count n, at least n further lines,
      the n matrix rows with n values each, symmetric with non-negative off-diagonal values. */
  ghost predicate Accepted(lines: seq<seq<int>>)
    requires |lines| > 0 && |lines[0]| == 1 ==> lines[0][0] >= 0
  {
    && |lines| > 0 && |lines[0]| == 1 && |lines| >= lines[0][0] + 1
    && SquareMatrix(Rows(lines, lines[0][0]), lines[0][0])
    && SymmetricNonNegative(Rows(lines, lines[0][0]), lines[0][0])
  }

  /** `load_distances` on a file already split into lines of integers: read the city count
      from the first line, name the cities, demand n further lines, parse the matrix and
      check it. On success the result is the dictionary and the list of city names. */
  method LoadDistances(lines: seq<seq<int>>) returns (r: Result<(Dict, seq<string>), LoadError>)
    requires |lines| > 0 && |lines[0]| == 1 ==> lines[0][0] >= 0
    ensures |lines| == 0 ==> r == Failure(EmptyFile)
    ensures |lines| > 0 && |lines[0]| != 1 ==> r == Failure(BadHeader)
    ensures |lines| > 0 && |lines[0]| == 1 && |lines| < lines[0][0] + 1 ==> r == Failure(TooFewRows(lines[0][0]))
    ensures r.Failure? && r.error.EmptyFile? <==> |lines| == 0
    ensures r.Failure? && r.error.BadHeader? <==> |lines| > 0 && !HeaderRead(lines)
    ensures r.Failure? && r.error.TooFewRows? <==> HeaderRead(lines) && !EnoughRows(lines)
    ensures r.Failure? && r.error.BadRowLength? <==>
      EnoughRows(lines) && !SquareMatrix(Rows(lines, lines[0][0]), lines[0][0])
    ensures r.Failure? && r.error.BadRowLength? ==>
      && r.error.numCities == lines[0][0] && 1 <= r.error.row <= lines[0][0]
      && |lines[r.error.row]| != lines[0][0]
      && (forall i :: 1 <= i < r.error.row ==> |lines[i]| == lines[0][0])
    ensures r.Failure? && (r.error.NegativeDistance? || r.error.NotSymmetric?) <==>
      && EnoughRows(lines) && SquareMatrix(Rows(lines, lines[0][0]), lines[0][0])
      && !SymmetricNonNegative(Rows(lines, lines[0][0]), lines[0][0])
    ensures r.Failure? ==> (Kind(r.error) == DistanceMatrixError <==> |lines| == 0)
    ensures r.Success? <==> Accepted(lines)
    ensures r.Success? ==>
      && r.value.1 == CityNames(lines[0][0])
      && DistanceDict(r.value.0, Rows(lines, lines[0][0]), r.value.1)
      && SymmetricEntries(r.value.0)
    ensures r.Failure? && (r.error.NegativeDistance? || r.error.NotSymmetric?) ==>
      && SquareMatrix(Rows(lines, lines[0][0]), lines[0][0])
      && exists i, j :: BadCell(Rows(lines, lines[0][0]), CityNames(lines[0][0]), i, j, r.error)
  {
    if |lines| == 0 {
      return Failure(EmptyFile);
    }
    if |lines[0]| != 1 {
      return Failure(BadHeader);
    }
    var numCities: nat := lines[0][0];
    var cityNames := CityNames(numCities);
    if |lines| < numCities + 1 {
      return Failure(TooFewRows(numCities));
    }
    var parsed := ParseMatrix(lines, numCities, cityNames);
    if parsed.Failure? {
      return Failure(parsed.error);
    }
    ghost var rows := Rows(lines, numCities);
    var d := parsed.value;
    ParsedSquare(d, rows, cityNames);
    ChecksPass(d, rows, cityNames);
    var violation := CheckDistances(d);
    if violation.Some? {
      CheckFails(d, rows, cityNames);
      return Failure(violation.value);
    }
    SymmetricDict(d, rows, cityNames);
    return Success((d, cityNames));
  }

  /** The lines hold a square matrix whose data is invalid: some off-diagonal distance is
      negative or differs from its mirror. */
  ghost predicate InvalidData(lines: seq<seq<int>>)
    requires |lines| > 0 && |lines[0]| == 1 ==> lines[0][0] >= 0
  {
    && EnoughRows(lines) && SquareMatrix(Rows(lines, lines[0][0]), lines[0][0])
    && !SymmetricNonNegative(Rows(lines, lines[0][0]), lines[0][0])
  }

  /** As written, a two-city matrix with distances 1 and 2 between the same cities fails as
      a value error, where the documentation promises a distance-matrix error. */
  method AsymmetricIsValueError(lines: seq<seq<int>>) returns (r: Result<(Dict, seq<string>), LoadError>)
    requires lines == [[2], [0, 1], [2, 0]]
    ensures r.Failure? && (r.error.NegativeDistance? || r.error.NotSymmetric?)
    ensures r.Failure? && Kind(r.error) == ValueError && DocumentedKind(r.error) == DistanceMatrixError
  {
    var rows := Rows(lines, 2);
    assert EnoughRows(lines) && SquareMatrix(rows, 2);
    assert rows[0][1] != rows[1][0];
    r := LoadDistances(lines);
  }

  /** `load_distances` with the error kinds its documentation promises: a failure is a
      distance-matrix error exactly when the file is empty or the matrix data is invalid. */
  method LoadDistancesDocumented(lines: seq<seq<int>>) returns (r: Result<(Dict, seq<string>), ErrorKind>)
    requires |lines| > 0 && |lines[0]| == 1 ==> lines[0][0] >= 0
    ensures r.Success? <==> Accepted(lines)
    ensures r.Success? ==>
      && r.value.1 == CityNames(lines[0][0])
      && DistanceDict(r.value.0, Rows(lines, lines[0][0]), r.value.1)
      && SymmetricEntries(r.value.0)
    ensures r.Failure? ==> (r.error == DistanceMatrixError <==> |lines| == 0 || InvalidData(lines))
  {
    var loaded := LoadDistances(lines);
    if loaded.Failure? {
      return Failure(DocumentedKind(loaded.error));
    }
    return Success(loaded.value);
  }
}
