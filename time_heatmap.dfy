/** The time heatmap: a 12 x 4 matrix of event counts per month and week,
    built in place from the CSV rows, and the placement of its flattened
    cells on a 12-column grid. Colour scales, cell sizes and labels are
    drawing and are outside the model. */
module TimeHeatmap {

  const Months: nat := 12
  const Weeks: nat := 4

  /** A CSV row after `+row.month` and `+row.week`. */
  datatype CsvRow = CsvRow(month: int, week: int)

  /** The guard of the update: month index in [0, 12) and week index in [0, 4). */
  predicate InRange(r: CsvRow) {
    0 <= r.month - 1 < Months && 0 <= r.week - 1 < Weeks
  }

  /** A matrix of the heatmap's shape, as nested sequences. */
  predicate IsGrid(g: seq<seq<int>>) {
    |g| == Months && forall m :: 0 <= m < Months ==> |g[m]| == Weeks
  }

  /** Twelve rows of four zeros. */
  function Zeros(): (g: seq<seq<int>>)
    ensures IsGrid(g)
    ensures forall m, w :: 0 <= m < Months && 0 <= w < Weeks ==> g[m][w] == 0
  {
    seq(Months, _ => seq(Weeks, _ => 0))
  }

  /** One row's effect: the cell of its month and week goes up by one when
      both are in range, nothing changes otherwise. */
  function Bump(g: seq<seq<int>>, r: CsvRow): (g': seq<seq<int>>)
    requires IsGrid(g)
    ensures IsGrid(g')
  {
    if InRange(r) then
      var m, w := r.month - 1, r.week - 1;
      g[m := g[m][w := g[m][w] + 1]]
    else g
  }

  /** The matrix after the `forEach` over `rows`. */
  function Counts(rows: seq<CsvRow>): (g: seq<seq<int>>)
    ensures IsGrid(g)
    decreases |rows|
  {
    if rows == [] then Zeros() else Bump(Counts(rows[..|rows| - 1]), rows[|rows| - 1])
  }

  /** Reference count: how many rows have month index `m` and week index `w`. */
  function CountMatching(rows: seq<CsvRow>, m: int, w: int): nat
    decreases |rows|
  {
    if rows == [] then 0
    else CountMatching(rows[..|rows| - 1], m, w)
         + (if rows[|rows| - 1].month - 1 == m && rows[|rows| - 1].week - 1 == w then 1 else 0)
  }

  /** How many rows pass the range guard. */
  function CountInRange(rows: seq<CsvRow>): (n: nat)
    ensures n <= |rows|
    decreases |rows|
  {
    if rows == [] then 0
    else CountInRange(rows[..|rows| - 1]) + (if InRange(rows[|rows| - 1]) then 1 else 0)
  }

  /** Each cell counts exactly the rows of its month and week. */
  lemma {:induction false} CountsAreMatches(rows: seq<CsvRow>, m: nat, w: nat)
    requires m < Months && w < Weeks
    ensures Counts(rows)[m][w] == CountMatching(rows, m, w)
    decreases |rows|
  {
    if rows != [] {
      CountsAreMatches(rows[..|rows| - 1], m, w);
    }
  }

  function RowSum(s: seq<int>): int
    decreases |s|
  {
    if s == [] then 0 else RowSum(s[..|s| - 1]) + s[|s| - 1]
  }

  function GridSum(g: seq<seq<int>>): int
    decreases |g|
  {
    if g == [] then 0 else GridSum(g[..|g| - 1]) + RowSum(g[|g| - 1])
  }

  lemma {:induction false} RowSumBump(s: seq<int>, k: nat)
    requires k < |s|
    ensures RowSum(s[k := s[k] + 1]) == RowSum(s) + 1
    decreases |s|
  {
    var t := s[k := s[k] + 1];
    assert t[..|t| - 1] == if k < |s| - 1 then s[..|s| - 1][k := s[k] + 1] else s[..|s| - 1];
    if k < |s| - 1 {
      RowSumBump(s[..|s| - 1], k);
    }
  }

  lemma {:induction false} GridSumBump(g: seq<seq<int>>, m: nat, w: nat)
    requires m < |g| && w < |g[m]|
    ensures GridSum(g[m := g[m][w := g[m][w] + 1]]) == GridSum(g) + 1
    decreases |g|
  {
    var h := g[m := g[m][w := g[m][w] + 1]];
    if m < |g| - 1 {
      assert h[..|h| - 1] == g[..|g| - 1][m := g[m][w := g[m][w] + 1]];
      GridSumBump(g[..|g| - 1], m, w);
    } else {
      assert h[..|h| - 1] == g[..|g| - 1];
      RowSumBump(g[m], w);
    }
  }

  lemma {:induction false} GridSumZeros(n: nat)
    requires n <= Months
    ensures GridSum(Zeros()[..n]) == 0
  {
    if n > 0 {
      GridSumZeros(n - 1);
      assert Zeros()[..n][..n - 1] == Zeros()[..n - 1];
      RowSumZeros(Zeros()[n - 1]);
    }
  }

  lemma {:induction false} RowSumZeros(s: seq<int>)
    requires forall k :: 0 <= k < |s| ==> s[k] == 0
    ensures RowSum(s) == 0
    decreases |s|
  {
    if s != [] {
      RowSumZeros(s[..|s| - 1]);
    }
  }

  /** All cells together count the in-range rows, so never more than the
      number of rows. */
  lemma {:induction false} TotalIsInRange(rows: seq<CsvRow>)
    ensures GridSum(Counts(rows)) == CountInRange(rows)
    ensures GridSum(Counts(rows)) <= |rows|
    decreases |rows|
  {
    if rows == [] {
      GridSumZeros(Months);
      assert Zeros()[..Months] == Zeros();
    } else {
      var init, r := rows[..|rows| - 1], rows[|rows| - 1];
      TotalIsInRange(init);
      if InRange(r) {
        GridSumBump(Counts(init), r.month - 1, r.week - 1);
      }
    }
  }

  /** Rows that all fail the range guard leave the matrix at zeros. */
  lemma {:induction false} NothingInRangeCountsNothing(rows: seq<CsvRow>)
    requires forall i :: 0 <= i < |rows| ==> !InRange(rows[i])
    ensures Counts(rows) == Zeros()
    ensures GridSum(Counts(rows)) == 0
    decreases |rows|
  {
    if rows != [] {
      NothingInRangeCountsNothing(rows[..|rows| - 1]);
    }
    GridSumZeros(Months);
    assert Zeros()[..Months] == Zeros();
  }

  /** No cell ever goes below zero. */
  lemma {:induction false} CellsNonNegative(rows: seq<CsvRow>, m: nat, w: nat)
    requires m < Months && w < Weeks
    ensures Counts(rows)[m][w] >= 0
  {
    CountsAreMatches(rows, m, w);
  }

  /** `dataMatrix[monthIndex][weekIndex] += 1` under the range guard. */
  method Tally(matrix: array2<int>, row: CsvRow)
    requires matrix.Length0 == Months && matrix.Length1 == Weeks
    modifies matrix
    ensures InRange(row) ==> matrix[row.month - 1, row.week - 1] == old(matrix[row.month - 1, row.week - 1]) + 1
    ensures forall m, w :: 0 <= m < Months && 0 <= w < Weeks && !(InRange(row) && m == row.month - 1 && w == row.week - 1)
              ==> matrix[m, w] == old(matrix[m, w])
  {
    var monthIndex := row.month - 1;
    var weekIndex := row.week - 1;
    if monthIndex >= 0 && monthIndex < 12 && weekIndex >= 0 && weekIndex < 4 {
      matrix[monthIndex, weekIndex] := matrix[monthIndex, weekIndex] + 1;
    }
  }

  /** The count matrix of `fetchData`: zero-initialised, then one Tally per
      row in order. */
  method BuildMatrix(rows: seq<CsvRow>) returns (matrix: array2<int>)
    ensures fresh(matrix)
    ensures matrix.Length0 == Months && matrix.Length1 == Weeks
    ensures forall m, w :: 0 <= m < Months && 0 <= w < Weeks ==> matrix[m, w] == Counts(rows)[m][w]
  {
    matrix := new int[Months, Weeks]((_, _) => 0);
    var k := 0;
    while k < |rows|
      invariant 0 <= k <= |rows|
      invariant forall m, w :: 0 <= m < Months && 0 <= w < Weeks ==> matrix[m, w] == Counts(rows[..k])[m][w]
    {
      assert rows[..k + 1][..k] == rows[..k];
      Tally(matrix, rows[k]);
      k := k + 1;
    }
    assert rows[..k] == rows;
  }

  // ----- layout of the flattened matrix -----

  /** `data.flat()`: the rows of the matrix one after another, month-major. */
  function Flat(g: seq<seq<int>>): seq<int>
    decreases |g|
  {
    if g == [] then [] else g[0] + Flat(g[1..])
  }

  lemma {:induction false} FlatAt(g: seq<seq<int>>, i: nat)
    requires forall m :: 0 <= m < |g| ==> |g[m]| == Weeks
    requires i < Weeks * |g|
    ensures |Flat(g)| == Weeks * |g|
    ensures Flat(g)[i] == g[i / Weeks][i % Weeks]
    decreases |g|
  {
    if i < Weeks {
      FlatLength(g[1..]);
    } else {
      FlatAt(g[1..], i - Weeks);
    }
  }

  lemma {:induction false} FlatLength(g: seq<seq<int>>)
    requires forall m :: 0 <= m < |g| ==> |g[m]| == Weeks
    ensures |Flat(g)| == Weeks * |g|
    decreases |g|
  {
    if g != [] {
      FlatLength(g[1..]);
    }
  }

  /** Rectangle column of flat index i: `i % months.length`. */
  function LayoutColumn(i: nat): nat {
    i % Months
  }

  /** Rectangle row of flat index i: `Math.floor(i / months.length)`. */
  function LayoutRow(i: nat): nat {
    i / Months
  }

  /** The 48 flat indices land on the 12 x 4 grid, each on its own cell. */
  lemma LayoutPlacement(i: nat, j: nat)
    requires i < Months * Weeks && j < Months * Weeks
    ensures LayoutColumn(i) < Months && LayoutRow(i) < Weeks
    ensures i != j ==> (LayoutColumn(i), LayoutRow(i)) != (LayoutColumn(j), LayoutRow(j))
  {
    assert i == LayoutRow(i) * Months + LayoutColumn(i);
    assert j == LayoutRow(j) * Months + LayoutColumn(j);
  }

  /** As drawn: the rectangle in month column `col` and week row `row` shows
      the flat entry at `row * 12 + col`. */
  function DrawnAt(g: seq<seq<int>>, col: nat, row: nat): int
    requires IsGrid(g) && col < Months && row < Weeks
  {
    FlatLength(g);
    Flat(g)[row * Months + col]
  }

  /** The value drawn at a grid cell is matrix entry [i / 4][i % 4] for the
      flat index i that lands there, not the cell's own month and week. */
  lemma DrawnValue(g: seq<seq<int>>, i: nat)
    requires IsGrid(g) && i < Months * Weeks
    ensures DrawnAt(g, LayoutColumn(i), LayoutRow(i)) == g[i / Weeks][i % Weeks]
  {
    assert LayoutRow(i) * Months + LayoutColumn(i) == i;
    FlatAt(g, i);
  }

  /** The drawn grid mislabels counts: one event in February, week 1 rises
      the cell in the May column, and the February / week 1 cell shows the
      January / week 2 count. */
  lemma DrawnMislabels()
    ensures DrawnAt(Counts([CsvRow(2, 1)]), 4, 0) == 1
    ensures DrawnAt(Counts([CsvRow(2, 1)]), 1, 0) == 0
    ensures CountMatching([CsvRow(2, 1)], 1, 0) == 1
  {
    var g := Counts([CsvRow(2, 1)]);
    assert [CsvRow(2, 1)][..0] == [];
    DrawnValue(g, 4);
    DrawnValue(g, 1);
  }

  /** Corrected placement: flat index i holds month i / 4 and week i % 4,
      so its rectangle goes to month column `Math.floor(i / weeks.length)`. */
  function FixedColumn(i: nat): nat {
    i / Weeks
  }

  /** Corrected placement: week row `i % weeks.length`. */
  function FixedRow(i: nat): nat {
    i % Weeks
  }

  /** The corrected placement also puts the 48 flat indices on the 12 x 4
      grid, each on its own cell. */
  lemma FixedPlacement(i: nat, j: nat)
    requires i < Months * Weeks && j < Months * Weeks
    ensures FixedColumn(i) < Months && FixedRow(i) < Weeks
    ensures i != j ==> (FixedColumn(i), FixedRow(i)) != (FixedColumn(j), FixedRow(j))
  {
    assert i == FixedColumn(i) * Weeks + FixedRow(i);
    assert j == FixedColumn(j) * Weeks + FixedRow(j);
  }

  /** With the corrected placement: the rectangle in month column `col` and
      week row `row` shows the flat entry at `col * 4 + row`, the one index
      the placement sends there. */
  function IntendedAt(g: seq<seq<int>>, col: nat, row: nat): int
    requires IsGrid(g) && col < Months && row < Weeks
  {
    FlatLength(g);
    Flat(g)[col * Weeks + row]
  }

  /** Under the corrected placement the rectangle of flat index i lands in
      column i / 4, row i % 4, and shows the matrix entry of exactly that
      month and week. */
  lemma FixedValue(g: seq<seq<int>>, i: nat)
    requires IsGrid(g) && i < Months * Weeks
    ensures FixedColumn(i) < Months && FixedRow(i) < Weeks
    ensures IntendedAt(g, FixedColumn(i), FixedRow(i)) == g[FixedColumn(i)][FixedRow(i)]
  {
    assert FixedColumn(i) * Weeks + FixedRow(i) == i;
    FlatAt(g, i);
  }

  /** The corrected drawing shows, in each month column and week row,
      exactly the events of that month and week. */
  lemma IntendedShowsOwnCell(rows: seq<CsvRow>, col: nat, row: nat)
    requires col < Months && row < Weeks
    ensures IntendedAt(Counts(rows), col, row) == CountMatching(rows, col, row)
  {
    var i := col * Weeks + row;
    assert FixedColumn(i) == col && FixedRow(i) == row;
    FixedValue(Counts(rows), i);
    CountsAreMatches(rows, col, row);
  }
}
