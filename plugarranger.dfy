/** The greedy assignment solver that gives every connected plug of a node a zone
    of its own (zodiac::arrangePlugs).

    The solver receives a row-major cost table with one row per connected plug and
    one column per zone and returns one column per row, no column twice.  It is a
    heuristic, not a minimum-cost solver: it starts from every row's cheapest
    column, repairs conflicts one row at a time by the cheapest move into a free
    column, and finishes with one pass of pairwise swaps.

    The functions below specify each phase on values; the method ArrangePlugs runs
    the phases in place on arrays, as the source does on its QVectors, and is proved
    to compute the specification. */
module PlugArranger {

  /** DBL_MAX, the value both minimum searches of the solver start from. */
  const DblMax: real := 179769313486231570814527423731704356798070567525844996598917476803157260780028538760589558632766878171540458953514382464234321326889464182768467546703537516986049910576551282076245490090389328944075868508455133942304583236903222948165808559332123348274797826204144723168738177180919299881250404026184124858368.0

  /** A cost table as the solver is called with it: `cells` holds `rows * columns`
      costs in row-major order. */
  datatype Table = Table(cells: seq<real>, rows: nat, columns: nat)
  {
    /** What the solver relies on: at least one row, no more rows than columns,
        and finite, non-negative costs (every cost below DBL_MAX). */
    predicate Valid()
    {
      1 <= rows <= columns && |cells| == rows * columns &&
      forall i :: 0 <= i < |cells| ==> 0.0 <= cells[i] < DblMax
    }
  }

  lemma CellIndex(rows: nat, columns: nat, row: nat, col: nat)
    requires row < rows && col < columns
    ensures columns * row + col < rows * columns
    ensures columns * row + columns <= rows * columns
  {
    MulMonotone(columns, row + 1, rows);
  }

  lemma RowSpan(rows: nat, columns: nat, row: nat)
    requires row < rows
    ensures columns * row + columns <= rows * columns
  {
    MulMonotone(columns, row + 1, rows);
  }

  lemma MulMonotone(a: nat, b: nat, c: nat)
    requires b <= c
    ensures a * b <= a * c
  {
  }

  /** The cost of putting `row` into column `col`: cell `columns * row + col`. */
  function Cost(t: Table, row: nat, col: nat): (c: real)
    requires t.Valid() && row < t.rows && col < t.columns
    ensures 0.0 <= c < DblMax
  {
    CellIndex(t.rows, t.columns, row, col);
    t.cells[t.columns * row + col]
  }

  /** The costs of one row, left to right. */
  function RowCosts(t: Table, row: nat): (s: seq<real>)
    requires t.Valid() && row < t.rows
    ensures |s| == t.columns
    ensures forall col :: 0 <= col < t.columns ==> s[col] == Cost(t, row, col)
  {
    CellIndex(t.rows, t.columns, row, 0);
    t.cells[t.columns * row .. t.columns * row + t.columns]
  }

  // ---------------------------------------------------------------------------
  // The minimum search shared by the initial guess and the repair step

  /** Scans the cells of one row left to right, starting from the running minimum
      `best` = (cost, row, column), and keeps every cell strictly smaller than the
      running minimum together with its position; this is the inner loop of both
      minimum searches of the solver (plugarranger.cpp:25-31 and 70-77). */
  function ScanRow(best: (real, nat, nat), s: seq<real>, row: nat): (r: (real, nat, nat))
    ensures r.0 <= best.0
    ensures forall k :: 0 <= k < |s| ==> r.0 <= s[k]
    ensures r.0 < best.0 ==> r.1 == row && r.2 < |s| && r.0 == s[r.2] && forall k :: 0 <= k < r.2 ==> r.0 < s[k]
    ensures r.0 < best.0 || r == best
  {
    if |s| == 0 then best
    else
      var prev := ScanRow(best, s[..|s| - 1], row);
      if s[|s| - 1] < prev.0 then (s[|s| - 1], row, |s| - 1) else prev
  }

  /** One step of the scan: looking at cell `k` after the first `k` cells. */
  lemma ScanRowStep(best: (real, nat, nat), s: seq<real>, k: nat, row: nat)
    requires k < |s|
    ensures ScanRow(best, s[..k + 1], row) ==
      (var prev := ScanRow(best, s[..k], row);
       if s[k] < prev.0 then (s[k], row, k) else prev)
  {
    assert s[..k + 1][..k] == s[..k];
  }

  /** The search of one row from (DBL_MAX, 0): the cost and column it stops at. */
  function MinScan(s: seq<real>): (r: (real, nat))
    ensures r.0 <= DblMax
    ensures forall j :: 0 <= j < |s| ==> r.0 <= s[j]
    ensures r.0 < DblMax ==> r.1 < |s| && r.0 == s[r.1] && forall j :: 0 <= j < r.1 ==> r.0 < s[j]
    ensures r.0 == DblMax ==> r.1 == 0
  {
    var r := ScanRow((DblMax, 0, 0), s, 0);
    (r.0, r.2)
  }

  /** The first index of a smallest entry. */
  predicate IsFirstMin(s: seq<real>, i: nat)
  {
    i < |s| && (forall j :: 0 <= j < |s| ==> s[i] <= s[j]) && (forall j :: 0 <= j < i ==> s[i] < s[j])
  }

  /** When some entry is below DBL_MAX, the scan finds the first smallest entry. */
  lemma MinScanFindsFirstMin(s: seq<real>, k: nat)
    requires k < |s| && s[k] < DblMax
    ensures IsFirstMin(s, MinScan(s).1) && MinScan(s).0 == s[MinScan(s).1]
  {
  }

  // ---------------------------------------------------------------------------
  // Phase 1: the initial guess

  /** An assignment of one column to every row of `t` (columns may repeat). */
  predicate Guess(t: Table, g: seq<nat>)
  {
    |g| == t.rows && forall i :: 0 <= i < |g| ==> g[i] < t.columns
  }

  /** Every row's cheapest column, lowest index on ties (plugarranger.cpp:22-32). */
  function InitialGuess(t: Table): (g: seq<nat>)
    requires t.Valid()
    ensures Guess(t, g)
  {
    seq(t.rows, row requires 0 <= row < t.rows =>
      MinScanFindsFirstMin(RowCosts(t, row), 0);
      MinScan(RowCosts(t, row)).1)
  }

  /** The initial guess gives every row a column of least cost in that row, and no
      column of smaller index has that cost. */
  lemma InitialGuessIsRowMinimum(t: Table, row: nat)
    requires t.Valid() && row < t.rows
    ensures InitialGuess(t)[row] < t.columns
    ensures forall col :: 0 <= col < t.columns ==> Cost(t, row, InitialGuess(t)[row]) <= Cost(t, row, col)
    ensures forall col :: 0 <= col < InitialGuess(t)[row] ==> Cost(t, row, InitialGuess(t)[row]) < Cost(t, row, col)
  {
    var s := RowCosts(t, row);
    MinScanFindsFirstMin(s, 0);
  }

  // ---------------------------------------------------------------------------
  // Conflicts and free columns

  /** The number of rows holding column `v` (QVector::count). */
  function Count(g: seq<nat>, v: nat): (n: nat)
    ensures n <= |g|
    ensures n == 0 <==> v !in g
  {
    if |g| == 0 then 0 else Count(g[..|g| - 1], v) + (if g[|g| - 1] == v then 1 else 0)
  }

  /** A row is in conflict exactly when another row holds its column. */
  lemma {:induction false} CountAbove1(g: seq<nat>, i: nat)
    requires i < |g|
    ensures Count(g, g[i]) > 1 <==> exists j :: 0 <= j < |g| && j != i && g[j] == g[i]
  {
    var last := |g| - 1;
    var s := g[..last];
    if i == last {
      assert Count(g, g[i]) == Count(s, g[i]) + 1;
      if Count(s, g[i]) > 0 {
        var j :| 0 <= j < |s| && s[j] == g[i];
        assert g[j] == g[i] && j != i;
      }
      if exists j :: 0 <= j < |g| && j != i && g[j] == g[i] {
        var j :| 0 <= j < |g| && j != i && g[j] == g[i];
        assert s[j] == g[i];
      }
    } else {
      CountAbove1(s, i);
      assert s[i] == g[i];
      if exists j :: 0 <= j < |g| && j != i && g[j] == g[i] {
        var j :| 0 <= j < |g| && j != i && g[j] == g[i];
        if j < last { assert s[j] == g[i]; }
      }
      if exists j :: 0 <= j < |s| && j != i && s[j] == s[i] {
        var j :| 0 <= j < |s| && j != i && s[j] == s[i];
        assert g[j] == g[i];
      }
    }
  }

  /** Strictly increasing: what both index lists of the solver are. */
  predicate Increasing(s: seq<nat>)
  {
    forall i, j :: 0 <= i < j < |s| ==> s[i] < s[j]
  }

  /** The rows among the first `n` whose column some other row also holds, in
      increasing order (getProblemRows, plugarranger.cpp:5-14). */
  function ProblemRowsUpTo(g: seq<nat>, n: nat): (p: seq<nat>)
    requires n <= |g|
    ensures |p| <= n && forall i :: 0 <= i < |p| ==> p[i] < n
  {
    if n == 0 then []
    else ProblemRowsUpTo(g, n - 1) + (if Count(g, g[n - 1]) > 1 then [n - 1] else [])
  }

  /** The rows listed are exactly the rows below `n` that are in conflict. */
  lemma ProblemRowsUpToMembers(g: seq<nat>, n: nat)
    requires n <= |g|
    ensures forall x: nat :: x in ProblemRowsUpTo(g, n) <==> x < n && Count(g, g[x]) > 1
  {
    forall x: nat ensures x in ProblemRowsUpTo(g, n) <==> x < n && Count(g, g[x]) > 1 {
      ProblemRowMember(g, n, x);
    }
  }

  lemma {:induction false} ProblemRowMember(g: seq<nat>, n: nat, x: nat)
    requires n <= |g|
    ensures x in ProblemRowsUpTo(g, n) <==> x < n && Count(g, g[x]) > 1
  {
    if n > 0 {
      ProblemRowMember(g, n - 1, x);
      var prev := ProblemRowsUpTo(g, n - 1);
      var last: seq<nat> := if Count(g, g[n - 1]) > 1 then [n - 1] else [];
      assert ProblemRowsUpTo(g, n) == prev + last;
      assert x in prev + last <==> x in prev || x in last;
    }
  }

  /** The rows are listed in increasing order. */
  lemma {:induction false} ProblemRowsUpToIncreasing(g: seq<nat>, n: nat)
    requires n <= |g|
    ensures Increasing(ProblemRowsUpTo(g, n))
  {
    if n > 0 {
      ProblemRowsUpToIncreasing(g, n - 1);
    }
  }

  function ProblemRows(g: seq<nat>): (p: seq<nat>)
    ensures |p| <= |g| && forall i :: 0 <= i < |p| ==> p[i] < |g|
  {
    ProblemRowsUpTo(g, |g|)
  }

  lemma ProblemRowsSpec(g: seq<nat>)
    ensures var p := ProblemRows(g);
            Increasing(p) && forall x: nat :: x in p <==> x < |g| && Count(g, g[x]) > 1
  {
    ProblemRowsUpToMembers(g, |g|);
    ProblemRowsUpToIncreasing(g, |g|);
  }

  /** No two rows share a column. */
  predicate Distinct(g: seq<nat>)
  {
    forall i, j :: 0 <= i < j < |g| ==> g[i] != g[j]
  }

  /** The repair loop stops exactly when no row is in conflict, that is, when the
      columns are pairwise distinct (plugarranger.cpp:50, 89). */
  lemma NoProblemRowsIffDistinct(g: seq<nat>)
    ensures ProblemRows(g) == [] <==> Distinct(g)
  {
    ProblemRowsSpec(g);
    if ProblemRows(g) == [] {
      forall i, j | 0 <= i < j < |g| ensures g[i] != g[j] {
        CountAbove1(g, i);
        assert i !in ProblemRows(g);
      }
    } else {
      var i := ProblemRows(g)[0];
      CountAbove1(g, i);
    }
  }

  /** The columns among the first `n` that no row holds, in increasing order
      (plugarranger.cpp:41-47). */
  function EmptyColumnsUpTo(g: seq<nat>, n: nat): (e: seq<nat>)
    ensures |e| <= n && forall i :: 0 <= i < |e| ==> e[i] < n
  {
    if n == 0 then []
    else EmptyColumnsUpTo(g, n - 1) + (if n - 1 !in g then [n - 1] else [])
  }

  /** The columns listed are exactly the columns below `n` nobody holds, in
      increasing order. */
  lemma {:induction false} EmptyColumnsUpToSpec(g: seq<nat>, n: nat)
    ensures var e := EmptyColumnsUpTo(g, n);
            Increasing(e) && forall x: nat :: x in e <==> x < n && x !in g
  {
    if n > 0 {
      EmptyColumnsUpToSpec(g, n - 1);
    }
  }

  function EmptyColumns(g: seq<nat>, columns: nat): (e: seq<nat>)
    ensures |e| <= columns && forall i :: 0 <= i < |e| ==> e[i] < columns
  {
    EmptyColumnsUpTo(g, columns)
  }

  // ---------------------------------------------------------------------------
  // Counting facts behind "a conflict leaves a free column"

  /** The set of values in `s`. */
  function Values(s: seq<nat>): (v: set<nat>)
    ensures forall x: nat :: x in v <==> x in s
    ensures |v| <= |s|
  {
    if s == [] then {} else {s[0]} + Values(s[1..])
  }

  /** The columns `0 .. n-1`. */
  function Range(n: nat): (v: set<nat>)
    ensures forall x: nat :: x in v <==> x < n
    ensures |v| == n
  {
    if n == 0 then {} else assert Range(n - 1) * {n - 1} == {}; Range(n - 1) + {n - 1}
  }

  lemma DuplicateValuesBound(s: seq<nat>, i: nat, j: nat)
    requires i < j < |s| && s[i] == s[j]
    ensures |Values(s)| < |s|
  {
    var rest := s[..j] + s[j + 1..];
    forall x | x in s ensures x in rest {
      var k :| 0 <= k < |s| && s[k] == x;
      if k < j { assert rest[k] == x; } else if k == j { assert rest[i] == x; } else { assert rest[k - 1] == x; }
    }
    assert Values(s) == Values(rest);
  }

  lemma SubsetCard(a: set<nat>, b: set<nat>)
    requires a <= b
    ensures |a| <= |b|
  {
    assert b == a + (b - a);
  }

  /** When some row is in conflict there is a column no row holds: the guess uses
      fewer distinct columns than there are rows, and there are no more rows than
      columns. */
  lemma FreeColumnExists(t: Table, g: seq<nat>)
    requires t.Valid() && Guess(t, g) && ProblemRows(g) != []
    ensures EmptyColumns(g, t.columns) != []
  {
    ProblemRowsSpec(g);
    EmptyColumnsUpToSpec(g, t.columns);
    var i := ProblemRows(g)[0];
    assert i in ProblemRows(g);
    CountAbove1(g, i);
    var j :| 0 <= j < |g| && j != i && g[j] == g[i];
    if i < j { DuplicateValuesBound(g, i, j); } else { DuplicateValuesBound(g, j, i); }
    if EmptyColumns(g, t.columns) == [] {
      assert Range(t.columns) <= Values(g);
      SubsetCard(Range(t.columns), Values(g));
    }
  }

  // ---------------------------------------------------------------------------
  // Phase 2: the repair loop

  /** `s` with position `j` taken out, the later entries moving down by one. */
  function Drop(s: seq<nat>, j: nat): (d: seq<nat>)
    requires j < |s|
    ensures |d| == |s| - 1
    ensures forall k :: 0 <= k < j ==> d[k] == s[k]
    ensures forall k :: j <= k < |d| ==> d[k] == s[k + 1]
  {
    s[..j] + s[j + 1..]
  }

  lemma DropIncreasing(s: seq<nat>, j: nat)
    requires Increasing(s) && j < |s|
    ensures Increasing(Drop(s, j))
    ensures forall x: nat :: x in Drop(s, j) <==> x in s && x != s[j]
  {
    var d := Drop(s, j);
    forall x | x in s && x != s[j] ensures x in d {
      var p :| 0 <= p < |s| && s[p] == x;
      if p < j { assert d[p] == x; } else { assert d[p - 1] == x; }
    }
  }

  lemma IncreasingTail(a: seq<nat>)
    requires Increasing(a) && a != []
    ensures forall x: nat :: x in a[1..] <==> x in a && x != a[0]
  {
    forall x | x in a && x != a[0] ensures x in a[1..] {
      var p :| 0 <= p < |a| && a[p] == x;
      assert a[1..][p - 1] == x;
    }
  }

  lemma NoElements(s: seq<nat>)
    ensures s == [] <==> forall x: nat :: x !in s
  {
    if s != [] { assert s[0] in s; }
  }

  /** Two increasing sequences with the same elements are equal. */
  lemma {:induction false} IncreasingUnique(a: seq<nat>, b: seq<nat>)
    requires Increasing(a) && Increasing(b)
    requires forall x: nat :: x in a <==> x in b
    ensures a == b
  {
    NoElements(a);
    NoElements(b);
    if a != [] && b != [] {
      assert a[0] in b && b[0] in a;
      assert a[0] == b[0];
      IncreasingTail(a);
      IncreasingTail(b);
      IncreasingUnique(a[1..], b[1..]);
      assert a == [a[0]] + a[1..] && b == [b[0]] + b[1..];
    }
  }

  /** Moving a row whose column is shared to column `c` adds `c` to the columns in
      use and removes none. */
  lemma MoveValues(g: seq<nat>, row: nat, c: nat)
    requires row < |g| && Count(g, g[row]) > 1
    ensures forall x: nat :: x in g[row := c] <==> x == c || x in g
  {
    CountAbove1(g, row);
    var other :| 0 <= other < |g| && other != row && g[other] == g[row];
    var h := g[row := c];
    assert h[row] == c;
    forall x: nat | x in g ensures x in h {
      var p :| 0 <= p < |g| && g[p] == x;
      if p == row { assert h[other] == x; } else { assert h[p] == x; }
    }
    forall x: nat | x in h && x != c ensures x in g {
      var p :| 0 <= p < |h| && h[p] == x;
      assert p != row && g[p] == x;
    }
  }

  /** Moving a row in conflict into the free column `emptyColumns[j]` frees no
      column and uses exactly that one, so the list of free columns loses entry `j`
      and nothing else: the in-place shift of plugarranger.cpp:81-85. */
  lemma EmptyColumnsAfterMove(t: Table, g: seq<nat>, row: nat, j: nat)
    requires t.Valid() && Guess(t, g) && row < |g| && Count(g, g[row]) > 1
    requires j < |EmptyColumns(g, t.columns)|
    ensures var e := EmptyColumns(g, t.columns);
            EmptyColumns(g[row := e[j]], t.columns) == Drop(e, j)
  {
    var e := EmptyColumns(g, t.columns);
    EmptyColumnsUpToSpec(g, t.columns);
    EmptyColumnsUpToSpec(g[row := e[j]], t.columns);
    MoveValues(g, row, e[j]);
    DropIncreasing(e, j);
    var after := EmptyColumns(g[row := e[j]], t.columns);
    forall x: nat ensures x in after <==> x in Drop(e, j) {
      if x in after { assert x < t.columns; }
      if x in e { assert x < t.columns; }
    }
    IncreasingUnique(EmptyColumns(g[row := e[j]], t.columns), Drop(e, j));
  }

  /** The change in cost when `row` leaves its current column for `col`. */
  function Delta(t: Table, g: seq<nat>, row: nat, col: nat): (d: real)
    requires t.Valid() && Guess(t, g) && row < t.rows && col < t.columns
    ensures d < DblMax
  {
    Cost(t, row, col) - Cost(t, row, g[row])
  }

  /** The delta table (plugarranger.cpp:54-61): one row per conflicting row, one
      column per free column. */
  function DeltaRows(t: Table, g: seq<nat>, p: seq<nat>, e: seq<nat>): (d: seq<seq<real>>)
    requires t.Valid() && Guess(t, g)
    requires forall i :: 0 <= i < |p| ==> p[i] < t.rows
    requires forall j :: 0 <= j < |e| ==> e[j] < t.columns
    ensures |d| == |p| && forall i :: 0 <= i < |d| ==> |d[i]| == |e|
    ensures forall i, j :: 0 <= i < |p| && 0 <= j < |e| ==> d[i][j] == Delta(t, g, p[i], e[j])
  {
    seq(|p|, i requires 0 <= i < |p| =>
      seq(|e|, j requires 0 <= j < |e| => Delta(t, g, p[i], e[j])))
  }

  /** The nested search over a table from (DBL_MAX, 0, 0), rows top to bottom: the
      first smallest cell in row-major order (plugarranger.cpp:66-78). */
  function MinScan2(d: seq<seq<real>>): (r: (real, nat, nat))
    ensures r.0 <= DblMax
    ensures forall i, j :: 0 <= i < |d| && 0 <= j < |d[i]| ==> r.0 <= d[i][j]
    ensures r.0 < DblMax ==>
      r.1 < |d| && r.2 < |d[r.1]| && r.0 == d[r.1][r.2] &&
      (forall i, j :: 0 <= i < r.1 && 0 <= j < |d[i]| ==> r.0 < d[i][j]) &&
      (forall j :: 0 <= j < r.2 ==> r.0 < d[r.1][j])
  {
    if |d| == 0 then (DblMax, 0, 0)
    else
      var front := d[..|d| - 1];
      assert forall i :: 0 <= i < |front| ==> front[i] == d[i];
      ScanRow(MinScan2(front), d[|d| - 1], |d| - 1)
  }

  /** One step of the row-major scan: taking in row `i` after the first `i` rows. */
  lemma MinScan2Step(d: seq<seq<real>>, i: nat)
    requires i < |d|
    ensures MinScan2(d[..i + 1]) == ScanRow(MinScan2(d[..i]), d[i], i)
  {
    assert d[..i + 1][..i] == d[..i];
  }

  /** The move the repair loop makes: the indices `(inRow, inCol)`, into the rows in
      conflict and the free columns, of the first smallest delta in row-major
      order. */
  function BestMove(t: Table, g: seq<nat>): (m: (nat, nat))
    requires t.Valid() && Guess(t, g) && ProblemRows(g) != []
    ensures m.0 < |ProblemRows(g)| && m.1 < |EmptyColumns(g, t.columns)|
  {
    var p := ProblemRows(g);
    var e := EmptyColumns(g, t.columns);
    FreeColumnExists(t, g);
    var d := DeltaRows(t, g, p, e);
    assert d[0][0] < DblMax;
    var r := MinScan2(d);
    (r.1, r.2)
  }

  /** The best move is a cheapest move, and every move before it in row-major
      order is strictly dearer. */
  lemma BestMoveIsFirstMinimum(t: Table, g: seq<nat>)
    requires t.Valid() && Guess(t, g) && ProblemRows(g) != []
    ensures var p := ProblemRows(g);
            var e := EmptyColumns(g, t.columns);
            var m := BestMove(t, g);
            (forall i, j :: 0 <= i < |p| && 0 <= j < |e| ==>
               Delta(t, g, p[m.0], e[m.1]) <= Delta(t, g, p[i], e[j])) &&
            (forall i, j :: 0 <= i < |p| && 0 <= j < |e| && (i < m.0 || (i == m.0 && j < m.1)) ==>
               Delta(t, g, p[m.0], e[m.1]) < Delta(t, g, p[i], e[j]))
  {
    var p := ProblemRows(g);
    var e := EmptyColumns(g, t.columns);
    FreeColumnExists(t, g);
    var d := DeltaRows(t, g, p, e);
    assert d[0][0] < DblMax;
  }

  /** Moving a row whose column is shared to a column nobody holds leaves every
      other column's count as it was. */
  lemma {:induction false} CountUpdate(g: seq<nat>, k: nat, c: nat, v: nat)
    requires k < |g|
    ensures Count(g[k := c], v) + (if g[k] == v then 1 else 0) == Count(g, v) + (if c == v then 1 else 0)
  {
    var last := |g| - 1;
    if k < last {
      CountUpdate(g[..last], k, c, v);
      assert g[k := c][..last] == g[..last][k := c];
    } else {
      assert g[k := c][..last] == g[..last];
    }
  }

  /** The repair loop (plugarranger.cpp:50-90): while some row is in conflict, make
      the best move of one such row into a free column. */
  function Repair(t: Table, g: seq<nat>): (r: seq<nat>)
    requires t.Valid() && Guess(t, g)
    ensures Guess(t, r)
    decreases |EmptyColumns(g, t.columns)|
  {
    if ProblemRows(g) == [] then g
    else
      RepairStepFacts(t, g);
      Repair(t, RepairStep(t, g))
  }

  /** The repair loop ends with every row in a column of its own; a row that was
      not in conflict keeps its column, and a row that moves ends in a column no
      row held at the start. */
  lemma {:induction false} RepairFacts(t: Table, g: seq<nat>)
    requires t.Valid() && Guess(t, g)
    ensures var r := Repair(t, g);
            Distinct(r) &&
            (forall i :: 0 <= i < |g| && Count(g, g[i]) == 1 ==> r[i] == g[i]) &&
            (forall i :: 0 <= i < |g| && r[i] != g[i] ==> r[i] !in g)
    decreases |EmptyColumns(g, t.columns)|
  {
    if ProblemRows(g) == [] {
      NoProblemRowsIffDistinct(g);
    } else {
      RepairStepFacts(t, g);
      RepairFacts(t, RepairStep(t, g));
    }
  }

  /** One move of the repair loop. */
  function RepairStep(t: Table, g: seq<nat>): (h: seq<nat>)
    requires t.Valid() && Guess(t, g) && ProblemRows(g) != []
    ensures Guess(t, h)
  {
    var m := BestMove(t, g);
    var p := ProblemRows(g);
    assert p[m.0] in p;
    g[p[m.0] := EmptyColumns(g, t.columns)[m.1]]
  }

  /** One move uses up one free column, leaves the other rows alone, creates no
      conflict for a row that had none and puts the moved row into a column nobody
      held. */
  lemma RepairStepFacts(t: Table, g: seq<nat>)
    requires t.Valid() && Guess(t, g) && ProblemRows(g) != []
    ensures |EmptyColumns(RepairStep(t, g), t.columns)| == |EmptyColumns(g, t.columns)| - 1
    ensures forall i :: 0 <= i < |g| && Count(g, g[i]) == 1 ==>
              RepairStep(t, g)[i] == g[i] && Count(RepairStep(t, g), g[i]) == 1
    ensures forall i :: 0 <= i < |g| && RepairStep(t, g)[i] != g[i] ==> RepairStep(t, g)[i] !in g
    ensures forall x: nat :: x in g ==> x in RepairStep(t, g)
    ensures EmptyColumns(RepairStep(t, g), t.columns) == Drop(EmptyColumns(g, t.columns), BestMove(t, g).1)
  {
    var m := BestMove(t, g);
    var p := ProblemRows(g);
    var e := EmptyColumns(g, t.columns);
    var row := p[m.0];
    assert row in p;
    ProblemRowsSpec(g);
    EmptyColumnsUpToSpec(g, t.columns);
    EmptyColumnsAfterMove(t, g, row, m.1);
    MoveValues(g, row, e[m.1]);
    assert e[m.1] in e;
    forall i | 0 <= i < |g| && Count(g, g[i]) == 1
      ensures RepairStep(t, g)[i] == g[i] && Count(RepairStep(t, g), g[i]) == 1
    {
      assert i != row;
      CountUpdate(g, row, e[m.1], g[i]);
    }
  }

  // ---------------------------------------------------------------------------
  // Phase 3: one pass of pairwise swaps

  /** The summed cost of the first `n` rows under `g`. */
  function CostUpTo(t: Table, g: seq<nat>, n: nat): real
    requires t.Valid() && Guess(t, g) && n <= |g|
  {
    if n == 0 then 0.0 else CostUpTo(t, g, n - 1) + Cost(t, n - 1, g[n - 1])
  }

  /** The summed cost of an assignment. */
  function TotalCost(t: Table, g: seq<nat>): real
    requires t.Valid() && Guess(t, g)
  {
    CostUpTo(t, g, |g|)
  }

  /** Changing the column of one row changes the summed cost by that row's change
      and nothing else. */
  lemma {:induction false} CostUpToUpdate(t: Table, g: seq<nat>, k: nat, c: nat, n: nat)
    requires t.Valid() && Guess(t, g) && k < |g| && c < t.columns && n <= |g|
    ensures Guess(t, g[k := c])
    ensures CostUpTo(t, g[k := c], n) ==
            CostUpTo(t, g, n) + (if k < n then Cost(t, k, c) - Cost(t, k, g[k]) else 0.0)
  {
    if n > 0 {
      CostUpToUpdate(t, g, k, c, n - 1);
    }
  }

  /** Swaps the columns of rows `l` and `r` when the swapped pair costs strictly
      less (plugarranger.cpp:96-104). */
  function TrySwap(t: Table, g: seq<nat>, l: nat, r: nat): (h: seq<nat>)
    requires t.Valid() && Guess(t, g) && l < r < t.rows
    ensures Guess(t, h)
  {
    var current := Cost(t, l, g[l]) + Cost(t, r, g[r]);
    var swapped := Cost(t, l, g[r]) + Cost(t, r, g[l]);
    if swapped < current then g[l := g[r]][r := g[l]] else g
  }

  /** A swap exchanges two columns, leaves the other rows alone, keeps the columns
      distinct, and is made only when it strictly lowers the summed cost. */
  lemma TrySwapFacts(t: Table, g: seq<nat>, l: nat, r: nat)
    requires t.Valid() && Guess(t, g) && l < r < t.rows
    ensures var h := TrySwap(t, g, l, r);
            multiset(h) == multiset(g) &&
            (Distinct(g) ==> Distinct(h)) &&
            (forall k :: 0 <= k < |g| && k != l && k != r ==> h[k] == g[k]) &&
            (h == g || (h[l] == g[r] && h[r] == g[l])) &&
            TotalCost(t, h) <= TotalCost(t, g) &&
            (h != g ==> TotalCost(t, h) < TotalCost(t, g))
  {
    if TrySwap(t, g, l, r) != g {
      SwapCost(t, g, l, r);
    }
  }

  lemma SwapCost(t: Table, g: seq<nat>, l: nat, r: nat)
    requires t.Valid() && Guess(t, g) && l < r < t.rows
    ensures Guess(t, g[l := g[r]][r := g[l]])
    ensures TotalCost(t, g[l := g[r]][r := g[l]]) ==
            TotalCost(t, g) + (Cost(t, l, g[r]) + Cost(t, r, g[l])) - (Cost(t, l, g[l]) + Cost(t, r, g[r]))
    ensures Distinct(g) ==> Distinct(g[l := g[r]][r := g[l]])
  {
    var h := g[l := g[r]];
    CostUpToUpdate(t, g, l, g[r], |g|);
    CostUpToUpdate(t, h, r, g[l], |g|);
    if Distinct(g) {
      var s := h[r := g[l]];
      forall i, j | 0 <= i < j < |s| ensures s[i] != s[j] {
        var i' := if i == l then r else if i == r then l else i;
        var j' := if j == l then r else if j == r then l else j;
        assert s[i] == g[i'] && s[j] == g[j'] && i' != j';
        if i' > j' { assert g[j'] != g[i']; }
      }
    }
  }

  /** The inner swap loop for left row `l`, from right row `r` on
      (plugarranger.cpp:95-105). */
  function SwapRight(t: Table, g: seq<nat>, l: nat, r: nat): (h: seq<nat>)
    requires t.Valid() && Guess(t, g) && l < r <= t.rows
    ensures Guess(t, h)
    decreases t.rows - r
  {
    if r == t.rows then g else SwapRight(t, TrySwap(t, g, l, r), l, r + 1)
  }

  /** The inner loop keeps the multiset of columns, keeps them distinct and never
      raises the summed cost. */
  lemma {:induction false} SwapRightFacts(t: Table, g: seq<nat>, l: nat, r: nat)
    requires t.Valid() && Guess(t, g) && l < r <= t.rows
    ensures var h := SwapRight(t, g, l, r);
            multiset(h) == multiset(g) && (Distinct(g) ==> Distinct(h)) && TotalCost(t, h) <= TotalCost(t, g)
    decreases t.rows - r
  {
    if r < t.rows {
      TrySwapFacts(t, g, l, r);
      SwapRightFacts(t, TrySwap(t, g, l, r), l, r + 1);
    }
  }

  /** The outer swap loop, from left row `l` on (plugarranger.cpp:94-106). */
  function SwapPass(t: Table, g: seq<nat>, l: nat): (h: seq<nat>)
    requires t.Valid() && Guess(t, g) && l <= t.rows
    ensures Guess(t, h)
    decreases t.rows - l
  {
    if l == t.rows then g else SwapPass(t, SwapRight(t, g, l, l + 1), l + 1)
  }

  /** The whole swap pass keeps the multiset of columns, keeps them distinct and
      never raises the summed cost. */
  lemma {:induction false} SwapPassFacts(t: Table, g: seq<nat>, l: nat)
    requires t.Valid() && Guess(t, g) && l <= t.rows
    ensures var h := SwapPass(t, g, l);
            multiset(h) == multiset(g) && (Distinct(g) ==> Distinct(h)) && TotalCost(t, h) <= TotalCost(t, g)
    decreases t.rows - l
  {
    if l < t.rows {
      SwapRightFacts(t, g, l, l + 1);
      SwapPassFacts(t, SwapRight(t, g, l, l + 1), l + 1);
    }
  }

  // ---------------------------------------------------------------------------
  // The whole solver

  /** zodiac::arrangePlugs on values: initial guess, repair, swap pass. */
  function Arrange(t: Table): (g: seq<nat>)
    requires t.Valid()
  {
    SwapPass(t, Repair(t, InitialGuess(t)), 0)
  }

  /** The result assigns every row its own column (the contract of
      plugarranger.h:38-66). */
  lemma ArrangeIsAssignment(t: Table)
    requires t.Valid()
    ensures |Arrange(t)| == t.rows
    ensures forall i :: 0 <= i < t.rows ==> Arrange(t)[i] < t.columns
    ensures forall i, j :: 0 <= i < j < t.rows ==> Arrange(t)[i] != Arrange(t)[j]
  {
    var g := Repair(t, InitialGuess(t));
    RepairFacts(t, InitialGuess(t));
    SwapPassFacts(t, g, 0);
  }

  /** The swap pass only ever lowers the summed cost of the repaired guess, and it
      reorders columns among the rows without introducing new ones. */
  lemma ArrangeImprovesRepair(t: Table)
    requires t.Valid()
    ensures TotalCost(t, Arrange(t)) <= TotalCost(t, Repair(t, InitialGuess(t)))
    ensures multiset(Arrange(t)) == multiset(Repair(t, InitialGuess(t)))
  {
    SwapPassFacts(t, Repair(t, InitialGuess(t)), 0);
  }

  /** Every row holds a column of least cost in its row. */
  predicate RowMinimal(t: Table, g: seq<nat>)
    requires t.Valid() && Guess(t, g)
  {
    forall row, col {:trigger Cost(t, row, col)} :: 0 <= row < t.rows && 0 <= col < t.columns ==> Cost(t, row, g[row]) <= Cost(t, row, col)
  }

  /** A swap of `l` and `r` is made exactly when it is strictly cheaper. */
  lemma NoFavourableSwapAt(t: Table, g: seq<nat>, l: nat, r: nat)
    requires t.Valid() && Guess(t, g) && l < r < t.rows
    requires Cost(t, l, g[r]) + Cost(t, r, g[l]) >= Cost(t, l, g[l]) + Cost(t, r, g[r])
    ensures TrySwap(t, g, l, r) == g
  {
  }

  /** No swap is ever favourable in an assignment that is row-wise minimal. */
  lemma {:induction false} SwapRightKeepsRowMinimal(t: Table, g: seq<nat>, l: nat, r: nat)
    requires t.Valid() && Guess(t, g) && l < r <= t.rows && RowMinimal(t, g)
    ensures SwapRight(t, g, l, r) == g
    decreases t.rows - r
  {
    if r < t.rows {
      assert Cost(t, l, g[l]) <= Cost(t, l, g[r]) && Cost(t, r, g[r]) <= Cost(t, r, g[l]);
      NoFavourableSwapAt(t, g, l, r);
      SwapRightKeepsRowMinimal(t, g, l, r + 1);
    }
  }

  lemma {:induction false} SwapPassKeepsRowMinimal(t: Table, g: seq<nat>, l: nat)
    requires t.Valid() && Guess(t, g) && l <= t.rows && RowMinimal(t, g)
    ensures SwapPass(t, g, l) == g
    decreases t.rows - l
  {
    if l < t.rows {
      SwapRightKeepsRowMinimal(t, g, l, l + 1);
      SwapPassKeepsRowMinimal(t, g, l + 1);
    }
  }

  /** When every row's cheapest column (lowest index on ties) is different, the
      solver returns exactly those columns, and that assignment has the least
      summed cost of all. */
  lemma ArrangeOfDistinctMinima(t: Table)
    requires t.Valid() && Distinct(InitialGuess(t))
    ensures Arrange(t) == InitialGuess(t)
    ensures forall h :: Guess(t, h) ==> TotalCost(t, Arrange(t)) <= TotalCost(t, h)
  {
    var g := InitialGuess(t);
    NoProblemRowsIffDistinct(g);
    forall row, col {:trigger Cost(t, row, col)} | 0 <= row < t.rows && 0 <= col < t.columns
      ensures Cost(t, row, g[row]) <= Cost(t, row, col)
    {
      InitialGuessIsRowMinimum(t, row);
    }
    SwapPassKeepsRowMinimal(t, g, 0);
    forall h | Guess(t, h) ensures TotalCost(t, g) <= TotalCost(t, h) {
      RowMinimalIsCheapest(t, g, h, |g|);
    }
  }

  lemma {:induction false} RowMinimalIsCheapest(t: Table, g: seq<nat>, h: seq<nat>, n: nat)
    requires t.Valid() && Guess(t, g) && Guess(t, h) && RowMinimal(t, g) && n <= t.rows
    ensures CostUpTo(t, g, n) <= CostUpTo(t, h, n)
  {
    if n > 0 {
      RowMinimalIsCheapest(t, g, h, n - 1);
      assert Cost(t, n - 1, g[n - 1]) <= Cost(t, n - 1, h[n - 1]);
    }
  }

  /** The worked example of plugarranger.h:41-58. */
  const ExampleTable := Table([87.0, 15.0, 75.0, 41.0, 32.0, 68.0, 93.0, 54.0, 21.0], 3, 3)

  lemma ExampleInitialGuess()
    ensures ExampleTable.Valid() && InitialGuess(ExampleTable) == [1, 1, 2]
  {
    var g := InitialGuess(ExampleTable);
    ExampleRow0();
    ExampleRow1();
    ExampleRow2();
    assert g == [g[0], g[1], g[2]];
  }

  lemma ExampleRow0()
    ensures ExampleTable.Valid() && InitialGuess(ExampleTable)[0] == 1
  {
    var s := RowCosts(ExampleTable, 0);
    assert s == [87.0, 15.0, 75.0];
    ExampleRowGuess(ExampleTable, 0, 1);
  }

  lemma ExampleRow1()
    ensures ExampleTable.Valid() && InitialGuess(ExampleTable)[1] == 1
  {
    var s := RowCosts(ExampleTable, 1);
    assert s == [41.0, 32.0, 68.0];
    ExampleRowGuess(ExampleTable, 1, 1);
  }

  lemma ExampleRow2()
    ensures ExampleTable.Valid() && InitialGuess(ExampleTable)[2] == 2
  {
    var s := RowCosts(ExampleTable, 2);
    assert s == [93.0, 54.0, 21.0];
    ExampleRowGuess(ExampleTable, 2, 2);
  }

  /** A row whose first smallest cost is at `col` is guessed `col`. */
  lemma ExampleRowGuess(t: Table, row: nat, col: nat)
    requires t.Valid() && row < t.rows && IsFirstMin(RowCosts(t, row), col) && RowCosts(t, row)[col] < DblMax
    ensures InitialGuess(t)[row] == col
  {
    var s := RowCosts(t, row);
    MinScanFindsFirstMin(s, col);
    FirstMinUnique(s, MinScan(s).1, col);
  }

  /** Only one index is the first of the smallest entries. */
  lemma FirstMinUnique(s: seq<real>, i: nat, j: nat)
    requires IsFirstMin(s, i) && IsFirstMin(s, j)
    ensures i == j
  {
    assert s[i] == s[j];
  }

  lemma ExampleConflicts()
    ensures ProblemRows([1, 1, 2]) == [0, 1] && EmptyColumns([1, 1, 2], 3) == [0]
  {
    var g: seq<nat> := [1, 1, 2];
    assert Count(g, 1) == 2 && Count(g, 2) == 1;
    assert ProblemRowsUpTo(g, 1) == [0];
    assert ProblemRowsUpTo(g, 2) == [0, 1];
    assert EmptyColumnsUpTo(g, 1) == [0];
    assert EmptyColumnsUpTo(g, 2) == [0];
  }

  lemma ExampleScan()
    ensures MinScan2([[72.0], [9.0]]) == (9.0, 1, 0)
  {
    var d: seq<seq<real>> := [[72.0], [9.0]];
    var a: seq<real> := [72.0];
    var b: seq<real> := [9.0];
    assert d[..1] == [[72.0]];
    assert |d[..1][..0]| == 0;
    assert |a[..0]| == 0;
    assert ScanRow((DblMax, 0, 0), [72.0], 0) == (72.0, 0, 0);
    assert MinScan2(d[..1]) == (72.0, 0, 0);
    assert |b[..0]| == 0;
    assert ScanRow((72.0, 0, 0), [9.0], 1) == (9.0, 1, 0);
  }

  lemma ExampleCosts()
    ensures ExampleTable.Valid()
    ensures Cost(ExampleTable, 0, 0) == 87.0 && Cost(ExampleTable, 0, 1) == 15.0
    ensures Cost(ExampleTable, 1, 0) == 41.0 && Cost(ExampleTable, 1, 1) == 32.0
  {
    assert ExampleTable.Valid();
  }

  lemma ExampleDeltas()
    requires ExampleTable.Valid() && Cost(ExampleTable, 0, 0) == 87.0 && Cost(ExampleTable, 0, 1) == 15.0
    requires Cost(ExampleTable, 1, 0) == 41.0 && Cost(ExampleTable, 1, 1) == 32.0
    ensures DeltaRows(ExampleTable, [1, 1, 2], [0, 1], [0]) == [[72.0], [9.0]]
  {
    var d := DeltaRows(ExampleTable, [1, 1, 2], [0, 1], [0]);
    assert d[0] == [72.0];
    assert d[1] == [9.0];
  }

  lemma ExampleMove()
    ensures ExampleTable.Valid() && ProblemRows([1, 1, 2]) != []
    ensures BestMove(ExampleTable, [1, 1, 2]) == (1, 0)
  {
    ExampleCosts();
    ExampleDeltas();
    ExampleConflicts();
    ExampleScan();
  }

  lemma ExampleRepairStep()
    ensures ExampleTable.Valid() && ProblemRows([1, 1, 2]) != []
    ensures RepairStep(ExampleTable, [1, 1, 2]) == [1, 0, 2]
  {
    ExampleMove();
    ExampleConflicts();
  }

  lemma ExampleNoConflict()
    ensures ProblemRows([1, 0, 2]) == []
  {
    var h: seq<nat> := [1, 0, 2];
    assert Count(h, 0) == 1 && Count(h, 1) == 1 && Count(h, 2) == 1;
    assert ProblemRowsUpTo(h, 1) == [] && ProblemRowsUpTo(h, 2) == [];
  }

  lemma ExampleRepair()
    ensures ExampleTable.Valid()
    ensures Repair(ExampleTable, [1, 1, 2]) == [1, 0, 2]
  {
    ExampleRepairStep();
    ExampleNoConflict();
  }

  lemma ExampleSwapPass()
    ensures ExampleTable.Valid() && Guess(ExampleTable, [1, 0, 2])
    ensures SwapPass(ExampleTable, [1, 0, 2], 0) == [1, 0, 2]
  {
    ExampleCosts();
    var t := ExampleTable;
    var h: seq<nat> := [1, 0, 2];
    assert Cost(t, 0, 2) == 75.0 && Cost(t, 1, 2) == 68.0;
    assert Cost(t, 2, 0) == 93.0 && Cost(t, 2, 1) == 54.0 && Cost(t, 2, 2) == 21.0;
    NoFavourableSwapAt(t, h, 0, 1);
    NoFavourableSwapAt(t, h, 0, 2);
    NoFavourableSwapAt(t, h, 1, 2);
    assert SwapRight(t, h, 2, 3) == h;
    assert SwapRight(t, h, 1, 2) == h;
    assert SwapRight(t, h, 0, 1) == h;
    assert SwapPass(t, h, 3) == h;
    assert SwapPass(t, h, 2) == h;
    assert SwapPass(t, h, 1) == h;
  }

  /** The worked example of plugarranger.h:41-58: the 3x3 table 87 15 75 / 41 32 68 /
      93 54 21 gives the columns [1, 0, 2]. */
  lemma DocumentedExample()
    ensures ExampleTable.Valid() && Arrange(ExampleTable) == [1, 0, 2]
  {
    ExampleInitialGuess();
    ExampleRepair();
    ExampleSwapPass();
  }

  // ---------------------------------------------------------------------------
  // The solver in place, on the buffers of the source

  /** Cell `(i, j)` of a buffer read as a row-major table of width `w`. */
  function At(a: seq<real>, w: nat, i: nat, j: nat): real
  {
    if w * i + j < |a| then a[w * i + j] else 0.0
  }

  /** Writing cell `(i, j)` leaves every other cell of width-`w` rows alone. */
  lemma AtUpdate(a: seq<real>, w: nat, i: nat, j: nat, v: real)
    requires j < w && w * i + j < |a|
    ensures At(a[w * i + j := v], w, i, j) == v
    ensures forall i', j' :: 0 <= j' < w && (i' != i || j' != j) ==> At(a[w * i + j := v], w, i', j') == At(a, w, i', j')
  {
    forall i': nat, j': nat | j' < w && (i' != i || j' != j)
      ensures At(a[w * i + j := v], w, i', j') == At(a, w, i', j')
    {
      DistinctCells(w, i, j, i', j');
    }
  }

  lemma DistinctCells(w: nat, i: nat, j: nat, i': nat, j': nat)
    requires j < w && j' < w && (i' != i || j' != j)
    ensures w * i' + j' != w * i + j
  {
    if i' < i { MulMonotone(w, i' + 1, i); } else if i < i' { MulMonotone(w, i + 1, i'); }
  }

  /** The first loop (plugarranger.cpp:22-32): every row's cheapest column. */
  method FirstGuess(t: Table) returns (guess: array<nat>)
    requires t.Valid()
    ensures fresh(guess) && guess[..] == InitialGuess(t)
  {
    guess := new nat[t.rows](_ => 0);
    for row := 0 to t.rows
      invariant forall r :: 0 <= r < row ==> guess[r] == InitialGuess(t)[r]
    {
      guess[row] := CheapestColumn(t, row);
    }
  }

  /** The inner loop of the initial guess (plugarranger.cpp:25-31): the first
      cheapest column of one row. */
  method CheapestColumn(t: Table, row: nat) returns (col: nat)
    requires t.Valid() && row < t.rows
    ensures col == MinScan(RowCosts(t, row)).1
  {
    var minCost := DblMax;
    col := 0;
    ghost var costs := RowCosts(t, row);
    for c := 0 to t.columns
      invariant ScanRow((DblMax, 0, 0), costs[..c], 0) == (minCost, 0, col)
    {
      var cell := Cost(t, row, c);
      ScanRowStep((DblMax, 0, 0), costs, c, 0);
      if cell < minCost {
        minCost := cell;
        col := c;
      }
    }
    assert costs[..t.columns] == costs;
  }

  /** getProblemRows (plugarranger.cpp:5-14): writes the rows in conflict to the
      front of `problemRows` and returns how many there are. */
  method GetProblemRows(problemRows: array<nat>, guess: array<nat>, rowCount: nat) returns (count: nat)
    requires problemRows != guess && rowCount == guess.Length <= problemRows.Length
    modifies problemRows
    ensures count == |ProblemRows(guess[..])| <= rowCount
    ensures problemRows[..count] == ProblemRows(guess[..])
  {
    ghost var g := guess[..];
    count := 0;
    for guessIndex := 0 to rowCount
      invariant guess[..] == g
      invariant count == |ProblemRowsUpTo(g, guessIndex)| <= guessIndex
      invariant problemRows[..count] == ProblemRowsUpTo(g, guessIndex)
    {
      ghost var before := problemRows[..count];
      ghost var conflict := Count(g, g[guessIndex]) > 1;
      assert ProblemRowsUpTo(g, guessIndex + 1) == before + (if conflict then [guessIndex] else []);
      if Count(guess[..], guess[guessIndex]) > 1 {
        problemRows[count] := guessIndex;
        count := count + 1;
        assert problemRows[..count] == before + [guessIndex];
      }
    }
  }

  /** A column some row holds is not free, so there are at most `n - 1` free
      columns below `n`: why the source's buffer of `columnCount - 1` free columns
      is large enough. */
  lemma {:induction false} EmptyColumnsMissing(g: seq<nat>, n: nat, v: nat)
    requires v in g
    ensures |EmptyColumnsUpTo(g, n)| <= if v < n then n - 1 else n
  {
    if v < n - 1 {
      EmptyColumnsMissing(g, n - 1, v);
    }
  }

  /** The free-column loop (plugarranger.cpp:41-47). */
  method FindEmptyColumns(emptyColumns: array<nat>, guess: array<nat>, columnCount: nat) returns (count: nat)
    requires emptyColumns != guess && guess.Length > 0 && guess[0] < columnCount
    requires emptyColumns.Length == columnCount - 1
    modifies emptyColumns
    ensures count == |EmptyColumns(guess[..], columnCount)| <= emptyColumns.Length
    ensures emptyColumns[..count] == EmptyColumns(guess[..], columnCount)
  {
    ghost var g := guess[..];
    count := 0;
    for col := 0 to columnCount
      invariant guess[..] == g
      invariant count == |EmptyColumnsUpTo(g, col)| <= columnCount - 1
      invariant emptyColumns[..count] == EmptyColumnsUpTo(g, col)
    {
      ghost var before := emptyColumns[..count];
      EmptyColumnsMissing(g, col + 1, g[0]);
      if col !in guess[..] {
        emptyColumns[count] := col;
        count := count + 1;
        assert emptyColumns[..count] == before + [col];
      }
    }
  }

  /** The delta-table loop (plugarranger.cpp:54-61). */
  method FillDeltaTable(deltaTable: array<real>, t: Table, guess: array<nat>,
                        problemRows: array<nat>, problemRowCount: nat,
                        emptyColumns: array<nat>, emptyColumnCount: nat)
    requires t.Valid() && Guess(t, guess[..])
    requires problemRowCount <= problemRows.Length && emptyColumnCount <= emptyColumns.Length
    requires forall i :: 0 <= i < problemRowCount ==> problemRows[i] < t.rows
    requires forall j :: 0 <= j < emptyColumnCount ==> emptyColumns[j] < t.columns
    requires problemRowCount * emptyColumnCount <= deltaTable.Length
    modifies deltaTable
    ensures forall i, j :: 0 <= i < problemRowCount && 0 <= j < emptyColumnCount ==>
              At(deltaTable[..], emptyColumnCount, i, j) == Delta(t, guess[..], problemRows[i], emptyColumns[j])
  {
    for rowIndex := 0 to problemRowCount
      invariant forall i, j :: 0 <= i < rowIndex && 0 <= j < emptyColumnCount ==>
                  At(deltaTable[..], emptyColumnCount, i, j) == Delta(t, guess[..], problemRows[i], emptyColumns[j])
    {
      var row := problemRows[rowIndex];
      for colIndex := 0 to emptyColumnCount
        invariant forall i, j :: 0 <= i < rowIndex && 0 <= j < emptyColumnCount ==>
                    At(deltaTable[..], emptyColumnCount, i, j) == Delta(t, guess[..], problemRows[i], emptyColumns[j])
        invariant forall j :: 0 <= j < colIndex ==>
                    At(deltaTable[..], emptyColumnCount, rowIndex, j) == Delta(t, guess[..], row, emptyColumns[j])
      {
        var col := emptyColumns[colIndex];
        CellIndex(problemRowCount, emptyColumnCount, rowIndex, colIndex);
        var delta := Cost(t, row, col) - Cost(t, row, guess[row]);
        assert delta == Delta(t, guess[..], row, col);
        ghost var before := deltaTable[..];
        deltaTable[(emptyColumnCount * rowIndex) + colIndex] := delta;
        assert deltaTable[..] == before[(emptyColumnCount * rowIndex) + colIndex := delta];
        AtUpdate(before, emptyColumnCount, rowIndex, colIndex, delta);
      }
    }
  }

  /** The search for the best move (plugarranger.cpp:66-78): the position of the
      first smallest cell, in row-major order, of the first `rowCount` rows of
      width `colCount` of `deltaTable`, which hold the table `d`. */
  method FindBestMove(deltaTable: array<real>, rowCount: nat, colCount: nat, ghost d: seq<seq<real>>)
    returns (inRow: nat, inCol: nat)
    requires |d| == rowCount && forall i :: 0 <= i < |d| ==> |d[i]| == colCount
    requires rowCount * colCount <= deltaTable.Length
    requires forall i, j :: 0 <= i < rowCount && 0 <= j < colCount ==> At(deltaTable[..], colCount, i, j) == d[i][j]
    ensures inRow == MinScan2(d).1 && inCol == MinScan2(d).2
  {
    var minCost := DblMax;
    inRow, inCol := 0, 0;
    for row := 0 to rowCount
      invariant (minCost, inRow, inCol) == MinScan2(d[..row])
    {
      RowSpan(rowCount, colCount, row);
      MinScan2Step(d, row);
      minCost, inRow, inCol := ScanDeltaRow(deltaTable, colCount, row, d[row], minCost, inRow, inCol);
    }
    assert d[..rowCount] == d;
  }

  /** The inner loop of the best-delta search (plugarranger.cpp:68-77): the cells
      `s` of row `row` continue the scan from `(minCost0, inRow0, inCol0)`. */
  method ScanDeltaRow(deltaTable: array<real>, colCount: nat, row: nat, ghost s: seq<real>,
                      minCost0: real, inRow0: nat, inCol0: nat)
    returns (minCost: real, inRow: nat, inCol: nat)
    requires |s| == colCount && colCount * row + colCount <= deltaTable.Length
    requires forall j :: 0 <= j < colCount ==> At(deltaTable[..], colCount, row, j) == s[j]
    ensures (minCost, inRow, inCol) == ScanRow((minCost0, inRow0, inCol0), s, row)
  {
    minCost, inRow, inCol := minCost0, inRow0, inCol0;
    for col := 0 to colCount
      invariant (minCost, inRow, inCol) == ScanRow((minCost0, inRow0, inCol0), s[..col], row)
    {
      var cell := deltaTable[(colCount * row) + col];
      assert cell == At(deltaTable[..], colCount, row, col);
      ScanRowStep((minCost0, inRow0, inCol0), s, col, row);
      if cell < minCost {
        minCost := cell;
        inRow := row;
        inCol := col;
      }
    }
    assert s[..|s|] == s;
  }

  /** Removal of the used free column (plugarranger.cpp:82-85): the entries after
      position `k` among the first `n` move down by one; the rest stay. */
  method RemoveAt(a: array<nat>, n: nat, k: nat)
    requires k < n <= a.Length
    modifies a
    ensures forall p :: 0 <= p < a.Length ==> a[p] == (if k <= p < n - 1 then old(a[p + 1]) else old(a[p]))
    ensures a[..n - 1] == Drop(old(a[..n]), k)
  {
    for col := k to n - 1
      invariant forall p :: 0 <= p < a.Length ==> a[p] == (if k <= p < col then old(a[p + 1]) else old(a[p]))
    {
      a[col] := a[col + 1];
    }
  }

  lemma SwapRightStep(t: Table, g: seq<nat>, l: nat, r: nat)
    requires t.Valid() && Guess(t, g) && l < r < t.rows
    ensures SwapRight(t, g, l, r) == SwapRight(t, TrySwap(t, g, l, r), l, r + 1)
  {
  }

  lemma SwapPassStep(t: Table, g: seq<nat>, l: nat)
    requires t.Valid() && Guess(t, g) && l < t.rows
    ensures SwapPass(t, g, l) == SwapPass(t, SwapRight(t, g, l, l + 1), l + 1)
  {
  }

  /** One comparison of the swap pass (plugarranger.cpp:96-104). */
  method TrySwapInPlace(t: Table, guess: array<nat>, leftIndex: nat, rightIndex: nat)
    requires t.Valid() && Guess(t, guess[..]) && leftIndex < rightIndex < t.rows
    modifies guess
    ensures guess[..] == TrySwap(t, old(guess[..]), leftIndex, rightIndex)
  {
    var currentSum := Cost(t, leftIndex, guess[leftIndex]) + Cost(t, rightIndex, guess[rightIndex]);
    var swapSum := Cost(t, leftIndex, guess[rightIndex]) + Cost(t, rightIndex, guess[leftIndex]);
    if swapSum < currentSum {
      var temp := guess[leftIndex];
      guess[leftIndex] := guess[rightIndex];
      guess[rightIndex] := temp;
    }
  }

  /** The inner swap loop in place (plugarranger.cpp:95-105). */
  method SwapRightInPlace(t: Table, guess: array<nat>, leftIndex: nat)
    requires t.Valid() && Guess(t, guess[..]) && leftIndex < t.rows
    modifies guess
    ensures guess[..] == SwapRight(t, old(guess[..]), leftIndex, leftIndex + 1)
  {
    ghost var goal := SwapRight(t, guess[..], leftIndex, leftIndex + 1);
    for rightIndex := leftIndex + 1 to t.rows
      invariant Guess(t, guess[..]) && SwapRight(t, guess[..], leftIndex, rightIndex) == goal
    {
      ghost var before := guess[..];
      SwapRightStep(t, before, leftIndex, rightIndex);
      TrySwapInPlace(t, guess, leftIndex, rightIndex);
    }
  }

  /** The swap pass in place (plugarranger.cpp:94-106). */
  method SwapInPlace(t: Table, guess: array<nat>)
    requires t.Valid() && Guess(t, guess[..])
    modifies guess
    ensures guess[..] == SwapPass(t, old(guess[..]), 0)
  {
    ghost var goal := SwapPass(t, guess[..], 0);
    for leftIndex := 0 to t.rows
      invariant Guess(t, guess[..]) && SwapPass(t, guess[..], leftIndex) == goal
    {
      ghost var before := guess[..];
      SwapPassStep(t, before, leftIndex);
      SwapRightInPlace(t, guess, leftIndex);
    }
  }

  /** The repair loop unfolds one move at a time. */
  lemma RepairUnfold(t: Table, g: seq<nat>)
    requires t.Valid() && Guess(t, g) && ProblemRows(g) != []
    ensures Repair(t, g) == Repair(t, RepairStep(t, g))
  {
  }

  /** One round of the repair loop (plugarranger.cpp:52-89): fill the delta table,
      make the best move, drop the used free column and recompute the rows in
      conflict. */
  method RepairMove(t: Table, guess: array<nat>, problemRows: array<nat>, problemRowCount: nat,
                    emptyColumns: array<nat>, emptyColumnCount: nat, deltaTable: array<real>)
    returns (newProblemRowCount: nat, newEmptyColumnCount: nat)
    requires t.Valid() && Guess(t, guess[..]) && ProblemRows(guess[..]) != []
    requires guess != problemRows && guess != emptyColumns && problemRows != emptyColumns
    requires guess.Length == problemRows.Length && emptyColumns.Length == t.columns - 1
    requires deltaTable.Length == t.rows * (t.columns - 1)
    requires problemRowCount == |ProblemRows(guess[..])|
    requires problemRows[..problemRowCount] == ProblemRows(guess[..])
    requires emptyColumnCount == |EmptyColumns(guess[..], t.columns)| <= emptyColumns.Length
    requires emptyColumns[..emptyColumnCount] == EmptyColumns(guess[..], t.columns)
    modifies guess, problemRows, emptyColumns, deltaTable
    ensures guess[..] == RepairStep(t, old(guess[..]))
    ensures newProblemRowCount == |ProblemRows(guess[..])| <= problemRows.Length
    ensures problemRows[..newProblemRowCount] == ProblemRows(guess[..])
    ensures newEmptyColumnCount == emptyColumnCount - 1 == |EmptyColumns(guess[..], t.columns)|
    ensures emptyColumns[..newEmptyColumnCount] == EmptyColumns(guess[..], t.columns)
  {
    ghost var g := guess[..];
    var inRow, inCol := ChooseMove(t, guess, problemRows, problemRowCount, emptyColumns, emptyColumnCount, deltaTable);
    assert problemRows[inRow] == ProblemRows(g)[inRow];
    assert emptyColumns[inCol] == EmptyColumns(g, t.columns)[inCol];
    guess[problemRows[inRow]] := emptyColumns[inCol];
    assert guess[..] == RepairStep(t, g);
    RepairStepFacts(t, g);

    newEmptyColumnCount := emptyColumnCount - 1;
    RemoveAt(emptyColumns, emptyColumnCount, inCol);

    newProblemRowCount := GetProblemRows(problemRows, guess, guess.Length);
  }

  /** Filling the delta table and finding its first smallest entry
      (plugarranger.cpp:54-78): the move `BestMove` names. */
  method ChooseMove(t: Table, guess: array<nat>, problemRows: array<nat>, problemRowCount: nat,
                    emptyColumns: array<nat>, emptyColumnCount: nat, deltaTable: array<real>)
    returns (inRow: nat, inCol: nat)
    requires t.Valid() && Guess(t, guess[..]) && ProblemRows(guess[..]) != []
    requires emptyColumns.Length == t.columns - 1
    requires deltaTable.Length == t.rows * (t.columns - 1)
    requires problemRowCount == |ProblemRows(guess[..])| <= problemRows.Length
    requires problemRows[..problemRowCount] == ProblemRows(guess[..])
    requires emptyColumnCount == |EmptyColumns(guess[..], t.columns)| <= emptyColumns.Length
    requires emptyColumns[..emptyColumnCount] == EmptyColumns(guess[..], t.columns)
    modifies deltaTable
    ensures (inRow, inCol) == BestMove(t, guess[..])
  {
    ghost var g := guess[..];
    ghost var p := ProblemRows(g);
    ghost var e := EmptyColumns(g, t.columns);
    FreeColumnExists(t, g);
    MulMonotone(emptyColumnCount, problemRowCount, t.rows);
    MulMonotone(t.rows, emptyColumnCount, t.columns - 1);
    FillDeltaTable(deltaTable, t, guess, problemRows, problemRowCount, emptyColumns, emptyColumnCount);
    ghost var d := DeltaRows(t, g, p, e);
    inRow, inCol := FindBestMove(deltaTable, problemRowCount, emptyColumnCount, d);
  }

  /** The repair loop in place (plugarranger.cpp:50-90). */
  method RepairLoop(t: Table, guess: array<nat>, problemRows: array<nat>, problemRowCount: nat,
                    emptyColumns: array<nat>, emptyColumnCount: nat, deltaTable: array<real>)
    requires t.Valid() && Guess(t, guess[..])
    requires guess != problemRows && guess != emptyColumns && problemRows != emptyColumns
    requires guess.Length == problemRows.Length && emptyColumns.Length == t.columns - 1
    requires deltaTable.Length == t.rows * (t.columns - 1)
    requires problemRowCount == |ProblemRows(guess[..])|
    requires problemRows[..problemRowCount] == ProblemRows(guess[..])
    requires emptyColumnCount == |EmptyColumns(guess[..], t.columns)| <= emptyColumns.Length
    requires emptyColumns[..emptyColumnCount] == EmptyColumns(guess[..], t.columns)
    modifies guess, problemRows, emptyColumns, deltaTable
    ensures guess[..] == Repair(t, old(guess[..]))
  {
    ghost var start := guess[..];
    var problemCount, emptyCount := problemRowCount, emptyColumnCount;
    while problemCount > 0
      invariant Guess(t, guess[..]) && Repair(t, guess[..]) == Repair(t, start)
      invariant problemCount == |ProblemRows(guess[..])| <= problemRows.Length
      invariant problemRows[..problemCount] == ProblemRows(guess[..])
      invariant emptyCount == |EmptyColumns(guess[..], t.columns)| <= emptyColumns.Length
      invariant emptyColumns[..emptyCount] == EmptyColumns(guess[..], t.columns)
      decreases emptyCount
    {
      RepairUnfold(t, guess[..]);
      problemCount, emptyCount :=
        RepairMove(t, guess, problemRows, problemCount, emptyColumns, emptyCount, deltaTable);
    }
  }

  /** The repair phase in place (plugarranger.cpp:34-90): the buffers for the
      rows in conflict, the free columns and the delta table, then the loop. */
  method RepairInPlace(t: Table, guess: array<nat>)
    requires t.Valid() && Guess(t, guess[..])
    modifies guess
    ensures guess[..] == Repair(t, old(guess[..]))
  {
    var rowCount, columnCount := t.rows, t.columns;
    var problemRows := new nat[rowCount](_ => 0);
    var problemRowCount := GetProblemRows(problemRows, guess, rowCount);

    var emptyColumns := new nat[columnCount - 1](_ => 0);
    var emptyColumnCount := FindEmptyColumns(emptyColumns, guess, columnCount);

    MulMonotone(rowCount, 0, columnCount - 1);
    var deltaTable := new real[rowCount * (columnCount - 1)](_ => 0.0);
    RepairLoop(t, guess, problemRows, problemRowCount, emptyColumns, emptyColumnCount, deltaTable);
  }

  /** zodiac::arrangePlugs (plugarranger.cpp:18-109) on its buffers: the columns
      it returns are the ones Arrange specifies, one per row and no column twice. */
  method ArrangePlugs(costTable: seq<real>, rowCount: nat, columnCount: nat) returns (result: seq<nat>)
    requires Table(costTable, rowCount, columnCount).Valid()
    ensures result == Arrange(Table(costTable, rowCount, columnCount))
    ensures |result| == rowCount && forall i :: 0 <= i < rowCount ==> result[i] < columnCount
    ensures forall i, j :: 0 <= i < j < rowCount ==> result[i] != result[j]
  {
    var t := Table(costTable, rowCount, columnCount);
    var guess := FirstGuess(t);
    RepairInPlace(t, guess);
    SwapInPlace(t, guess);
    result := guess[..];
    ArrangeIsAssignment(t);
  }
}
