/**
  The dense row-major matrix of the training program, over the scalar `real`
  (the program instantiates its numeric protocol only with a floating-point type).

  Cell (row, column) lives at buffer position `row * columns + column`. Like the
  original, the accessors check only that this flat position exists, not that the
  row and the column are individually in range. Apart from `Valid`, which every
  matrix the program builds satisfies, the `requires` of each operation below is
  the condition without which the original stops on an out-of-range access; the
  generator of `Generate` is asked to be defined on the cells only.
 */
module Matrices {

  datatype Matrix = Matrix(buffer: seq<real>, rows: nat, columns: nat)

  /**
    a * b on naturals, written as repeated addition. Index arithmetic is stated with it so
    that the solver sees row * columns as an opaque term with linear unfoldings rather than
    as a nonlinear product; `TimesIsProduct` connects it to `*`.
   */
  function Times(a: nat, b: nat): nat {
    if a == 0 then 0 else Times(a - 1, b) + b
  }

  /** The flat buffer position of cell (row, column) in a matrix with `columns` columns: row * columns + column. */
  function Idx(columns: nat, row: nat, column: nat): nat {
    Times(row, columns) + column
  }

  /**
    The invariant every constructor establishes and every operation keeps: the buffer
    holds exactly one scalar per cell (rows * columns of them), so every in-bounds cell
    has a flat position in it.
   */
  predicate Valid(m: Matrix) {
    && |m.buffer| == Times(m.rows, m.columns)
    && forall i: nat, j: nat :: i < m.rows && j < m.columns ==> Idx(m.columns, i, j) < |m.buffer|
  }

  predicate SameShape(a: Matrix, b: Matrix) {
    a.rows == b.rows && a.columns == b.columns
  }

  // ---------------------------------------------------------------------------
  // Row-major index arithmetic

  lemma {:induction false} TimesIsProduct(a: nat, b: nat)
    ensures Times(a, b) == a * b
    decreases a
  {
    if a > 0 {
      TimesIsProduct(a - 1, b);
    }
  }

  lemma TimesMonotone(a: nat, b: nat, c: nat)
    ensures a <= b ==> Times(a, c) <= Times(b, c)
  {
    TimesIsProduct(a, c);
    TimesIsProduct(b, c);
    if a <= b {
      assert a * c <= b * c;
    }
  }

  lemma TimesPositive(a: nat, b: nat)
    ensures Times(a, b) > 0 <==> a > 0 && b > 0
  {
    TimesIsProduct(a, b);
  }

  /** An in-bounds cell has a flat position below rows * columns. */
  lemma IdxBelow(rows: nat, columns: nat, row: nat, column: nat)
    requires row < rows && column < columns
    ensures Idx(columns, row, column) < Times(rows, columns)
  {
    TimesMonotone(row + 1, rows, columns);
  }

  lemma AllIdxBelow(rows: nat, columns: nat)
    ensures forall i: nat, j: nat :: i < rows && j < columns ==> Idx(columns, i, j) < Times(rows, columns)
  {
    forall i: nat, j: nat | i < rows && j < columns
      ensures Idx(columns, i, j) < Times(rows, columns)
    {
      IdxBelow(rows, columns, i, j);
    }
  }

  /** Distinct in-bounds cells have distinct flat positions. */
  lemma IdxInjective(columns: nat, r1: nat, c1: nat, r2: nat, c2: nat)
    requires c1 < columns && c2 < columns
    requires Idx(columns, r1, c1) == Idx(columns, r2, c2)
    ensures r1 == r2 && c1 == c2
  {
    TimesMonotone(r1 + 1, r2, columns);
    TimesMonotone(r2 + 1, r1, columns);
  }

  /** Euclidean division splits a position into a row and a column. */
  lemma DivMod(k: nat, columns: nat)
    requires columns > 0
    ensures 0 <= k / columns && 0 <= k % columns < columns
    ensures Idx(columns, k / columns, k % columns) == k
  {
    TimesIsProduct(k / columns, columns);
  }

  /** Buffer position k is the flat position of exactly one in-bounds cell: (k / columns, k % columns). */
  lemma IdxOfPosition(rows: nat, columns: nat, k: nat)
    requires k < Times(rows, columns)
    ensures columns > 0
    ensures 0 <= k / columns < rows && 0 <= k % columns < columns
    ensures Idx(columns, k / columns, k % columns) == k
    ensures forall i: nat, j: nat :: j < columns && Idx(columns, i, j) == k ==> i == k / columns && j == k % columns
  {
    TimesPositive(rows, columns);
    DivMod(k, columns);
    var q: nat, r: nat := k / columns, k % columns;
    TimesMonotone(rows, q, columns);
    forall i: nat, j: nat | j < columns && Idx(columns, i, j) == k
      ensures i == q && j == r
    {
      IdxInjective(columns, i, j, q, r);
    }
  }

  // ---------------------------------------------------------------------------
  // Cell access: getAt and setAt(row:column:to:)

  /** `getAt`: the scalar at the flat position of (row, column). */
  function Get(m: Matrix, row: nat, column: nat): real
    requires Idx(m.columns, row, column) < |m.buffer|
  {
    m.buffer[Idx(m.columns, row, column)]
  }

  /** `setAt(row:column:to:)`: overwrites the scalar at the flat position of (row, column). */
  function Set(m: Matrix, row: nat, column: nat, value: real): (r: Matrix)
    requires Idx(m.columns, row, column) < |m.buffer|
    ensures SameShape(r, m) && |r.buffer| == |m.buffer|
    ensures Valid(m) ==> Valid(r)
    ensures Get(r, row, column) == value
    ensures forall k :: 0 <= k < |m.buffer| && k != Idx(m.columns, row, column) ==> r.buffer[k] == m.buffer[k]
  {
    m.(buffer := m.buffer[Idx(m.columns, row, column) := value])
  }

  /** Reading a cell after writing one gives the written value there and the old value everywhere else. */
  lemma SetGet(m: Matrix, row: nat, column: nat, value: real, i: nat, j: nat)
    requires Valid(m) && row < m.rows && column < m.columns && i < m.rows && j < m.columns
    ensures Valid(Set(m, row, column, value))
    ensures Get(Set(m, row, column, value), i, j) == if i == row && j == column then value else Get(m, i, j)
  {
    if Idx(m.columns, row, column) == Idx(m.columns, i, j) {
      IdxInjective(m.columns, row, column, i, j);
    }
  }

  /** Two valid matrices of one shape that agree on every cell are the same matrix. */
  lemma Extensionality(a: Matrix, b: Matrix)
    requires Valid(a) && Valid(b) && SameShape(a, b)
    requires forall i: nat, j: nat :: i < a.rows && j < a.columns ==> Get(a, i, j) == Get(b, i, j)
    ensures a == b
  {
    forall k | 0 <= k < |a.buffer|
      ensures a.buffer[k] == b.buffer[k]
    {
      IdxOfPosition(a.rows, a.columns, k);
      var i: nat, j: nat := k / a.columns, k % a.columns;
      assert Get(a, i, j) == Get(b, i, j);
    }
  }

  // ---------------------------------------------------------------------------
  // Construction

  /** `init(rows:columns:with:)` with a fill value: a rows x columns matrix all of whose cells hold `value`. */
  function Fill(rows: nat, columns: nat, value: real): (m: Matrix)
    ensures Valid(m) && m.rows == rows && m.columns == columns
    ensures forall i: nat, j: nat :: i < rows && j < columns ==> Get(m, i, j) == value
  {
    AllIdxBelow(rows, columns);
    Matrix(seq(Times(rows, columns), _ => value), rows, columns)
  }

  /**
    `init(rows:columns:with:)` with a generator: the rows x columns matrix whose cell (i, j)
    is `g(i, j)`. The original first fills with `g(0, 0)` and then overwrites every cell in
    row-major order; for a generator without side effects that is the same as laying the
    rows out one after another, which is how `GenerateFrom` builds it. The seeding call
    `g(0, 0)` happens even for zero rows or columns; `g` is asked to be defined only on the
    cells, so a generator that would stop at (0, 0) outside them is not modelled.
   */
  function Generate(rows: nat, columns: nat, g: (nat, nat) --> real): (m: Matrix)
    requires forall i: nat, j: nat :: i < rows && j < columns ==> g.requires(i, j)
    ensures Valid(m) && m.rows == rows && m.columns == columns
    ensures forall i: nat, j: nat :: i < rows && j < columns ==> Get(m, i, j) == g(i, j)
  {
    GenerateFrom(rows, columns, g, 0, [])
  }

  /**
    The generated matrix, given `acc` holding its rows 0 .. done - 1 already laid out:
    appends row `done`, then the rows after it.
   */
  function GenerateFrom(rows: nat, columns: nat, g: (nat, nat) --> real, done: nat, acc: seq<real>): (m: Matrix)
    requires forall i: nat, j: nat :: i < rows && j < columns ==> g.requires(i, j)
    requires done <= rows && |acc| == Times(done, columns)
    requires forall i: nat, j: nat :: i < done && j < columns ==> Idx(columns, i, j) < |acc| && acc[Idx(columns, i, j)] == g(i, j)
    ensures Valid(m) && m.rows == rows && m.columns == columns
    ensures forall i: nat, j: nat :: i < rows && j < columns ==> Get(m, i, j) == g(i, j)
    decreases rows - done
  {
    if done == rows then Matrix(acc, rows, columns)
    else
      var row := seq(columns, j requires 0 <= j < columns => g(done, j));
      var next := acc + row;
      forall i: nat, j: nat | i < done + 1 && j < columns
        ensures Idx(columns, i, j) < |next| && next[Idx(columns, i, j)] == g(i, j)
      {
        if i == done {
          assert next[Idx(columns, i, j)] == row[j];
        }
      }
      GenerateFrom(rows, columns, g, done + 1, next)
  }


  /**
    `set(_:)`: in row-major order, for i < |values| and j < |values[0]|, writes `values[i][j]`
    at flat position i * columns + j, reading each row only up to the length of the first one.
    Row i is therefore `setAt(row:to:)` of its first |values[0]| entries. A first row longer
    than `columns` runs on into the next row, whose own writes then overwrite the overflow:
    position i * columns + j ends up holding `values[i][j]` when j < columns or i is the last
    row, and positions no row reaches are unchanged.
   */
  function SetRows(m: Matrix, values: seq<seq<real>>): (r: Matrix)
    requires Valid(m)
    requires forall i :: 0 <= i < |values| ==> |values[i]| >= |values[0]|
    requires |values| == 0 || |values[0]| == 0 || Idx(m.columns, |values| - 1, |values[0]| - 1) < |m.buffer|
    ensures Valid(r) && SameShape(r, m)
    ensures |values| == 0 ==> r == m
    ensures |values| > 0 ==> RowsHold(m, r, values, |values[0]|, |values|) && RowsKeep(m, r, |values[0]|, |values|)
    ensures |values| == 0 || |values[0]| <= m.columns ==>
              forall i: nat, j: nat :: i < m.rows && j < m.columns ==>
                Get(r, i, j) == if i < |values| && j < |values[0]| then values[i][j] else Get(m, i, j)
  {
    if |values| == 0 then m
    else
      var r := SetRowsFrom(m, values, |values[0]|, |values|);
      SetRowsFromHolds(m, values, |values[0]|, |values|);
      SetRowsFromKeeps(m, values, |values[0]|, |values|);
      RowsCells(m, r, values, |values[0]|, |values|);
      r
  }

  /**
    The writes of the first n rows that no later row overwrites have landed: position
    i * columns + j holds values[i][j] for j < width when j < columns or i is the last row.
   */
  predicate RowsHold(m: Matrix, r: Matrix, values: seq<seq<real>>, width: nat, n: nat)
    requires n <= |values| && forall i :: 0 <= i < n ==> |values[i]| >= width
  {
    && |r.buffer| == |m.buffer|
    && forall i, j {:trigger values[i][j]} :: 0 <= i < n && 0 <= j < width && (j < m.columns || i == n - 1) ==>
         Idx(m.columns, i, j) < |r.buffer| && r.buffer[Idx(m.columns, i, j)] == values[i][j]
  }

  /** Every position that none of the first n rows reaches is unchanged. */
  predicate RowsKeep(m: Matrix, r: Matrix, width: nat, n: nat) {
    && |r.buffer| == |m.buffer|
    && forall k :: 0 <= k < |m.buffer| && RowsMiss(m.columns, width, n, k) ==> r.buffer[k] == m.buffer[k]
  }

  /** No row i < n of the given width, laid out from i * columns, reaches flat position k. */
  predicate RowsMiss(columns: nat, width: nat, n: nat, k: nat) {
    forall i :: 0 <= i < n ==> !(Idx(columns, i, 0) <= k < Idx(columns, i, 0) + width)
  }

  /** The first n rows of `set(_:)`, each written as `setAt(row:to:)` of its first `width` entries. */
  function SetRowsFrom(m: Matrix, values: seq<seq<real>>, width: nat, n: nat): (r: Matrix)
    requires Valid(m) && n <= |values|
    requires forall i :: 0 <= i < n ==> |values[i]| >= width
    requires n == 0 || width == 0 || Idx(m.columns, n - 1, width - 1) < |m.buffer|
    ensures Valid(r) && SameShape(r, m) && |r.buffer| == |m.buffer|
  {
    if n == 0 then m
    else
      RowsFit(m, width, n);
      var prev := SetRowsFrom(m, values, width, n - 1);
      var row := values[n - 1][..width];
      RowFits(m, prev, n - 1, row);
      SetRow(prev, n - 1, row)
  }

  /** After the first n rows are written, each landed where its row starts. */
  lemma {:induction false} SetRowsFromHolds(m: Matrix, values: seq<seq<real>>, width: nat, n: nat)
    requires Valid(m) && n <= |values|
    requires forall i :: 0 <= i < n ==> |values[i]| >= width
    requires n == 0 || width == 0 || Idx(m.columns, n - 1, width - 1) < |m.buffer|
    ensures RowsHold(m, SetRowsFrom(m, values, width, n), values, width, n)
  {
    if n > 0 {
      RowsFit(m, width, n);
      var prev := SetRowsFrom(m, values, width, n - 1);
      var row := values[n - 1][..width];
      RowFits(m, prev, n - 1, row);
      var r := SetRow(prev, n - 1, row);
      SetRowsFromHolds(m, values, width, n - 1);
      RowsStepHold(m, values, width, n, prev, r);
    }
  }

  /** After the first n rows are written, no position outside their spans has changed. */
  lemma {:induction false} SetRowsFromKeeps(m: Matrix, values: seq<seq<real>>, width: nat, n: nat)
    requires Valid(m) && n <= |values|
    requires forall i :: 0 <= i < n ==> |values[i]| >= width
    requires n == 0 || width == 0 || Idx(m.columns, n - 1, width - 1) < |m.buffer|
    ensures RowsKeep(m, SetRowsFrom(m, values, width, n), width, n)
  {
    if n > 0 {
      RowsFit(m, width, n);
      var prev := SetRowsFrom(m, values, width, n - 1);
      var row := values[n - 1][..width];
      RowFits(m, prev, n - 1, row);
      var r := SetRow(prev, n - 1, row);
      SetRowsFromKeeps(m, values, width, n - 1);
      RowsStepKeep(m, values, width, n, prev, r);
    }
  }

  /** The last of n rows fits, and so do the rows before it. */
  lemma RowsFit(m: Matrix, width: nat, n: nat)
    requires 0 < n && (width == 0 || Idx(m.columns, n - 1, width - 1) < |m.buffer|)
    ensures width == 0 || Idx(m.columns, n - 1, 0) + width <= |m.buffer|
    ensures n == 1 || width == 0 || Idx(m.columns, n - 2, width - 1) < |m.buffer|
  {
  }

  /** A row that fits m fits every matrix of m's shape and buffer length. */
  lemma RowFits(m: Matrix, prev: Matrix, row: nat, values: seq<real>)
    requires SameShape(prev, m) && |prev.buffer| == |m.buffer|
    requires |values| == 0 || Idx(m.columns, row, 0) + |values| <= |m.buffer|
    ensures |values| == 0 || Idx(prev.columns, row, 0) + |values| <= |prev.buffer|
  {
  }

  /** Writing row n - 1 keeps the landed writes of the rows before it and adds its own. */
  lemma RowsStepHold(m: Matrix, values: seq<seq<real>>, width: nat, n: nat, prev: Matrix, r: Matrix)
    requires Valid(m) && Valid(prev) && SameShape(prev, m) && 0 < n <= |values|
    requires forall i :: 0 <= i < n ==> |values[i]| >= width
    requires width == 0 || Idx(m.columns, n - 1, width - 1) < |m.buffer|
    requires RowsHold(m, prev, values, width, n - 1)
    requires r == SetRow(prev, n - 1, values[n - 1][..width])
    ensures RowsHold(m, r, values, width, n)
  {
    forall i, j | 0 <= i < n && 0 <= j < width && (j < m.columns || i == n - 1)
      ensures Idx(m.columns, i, j) < |r.buffer| && r.buffer[Idx(m.columns, i, j)] == values[i][j]
    {
      if i < n - 1 {
        RowBefore(m.columns, i, n - 1);
      }
    }
  }

  /** Writing row n - 1 changes no position outside that row's span. */
  lemma RowsStepKeep(m: Matrix, values: seq<seq<real>>, width: nat, n: nat, prev: Matrix, r: Matrix)
    requires Valid(m) && Valid(prev) && SameShape(prev, m) && 0 < n <= |values|
    requires forall i :: 0 <= i < n ==> |values[i]| >= width
    requires width == 0 || Idx(m.columns, n - 1, width - 1) < |m.buffer|
    requires RowsKeep(m, prev, width, n - 1)
    requires r == SetRow(prev, n - 1, values[n - 1][..width])
    ensures RowsKeep(m, r, width, n)
  {
  }

  /** Every position of a row before row l lies before row l's first position. */
  lemma RowBefore(columns: nat, i: nat, l: nat)
    requires i < l
    ensures Times(i, columns) + columns <= Times(l, columns)
  {
  }

  /** When rows are no wider than the matrix, the flat facts are the cell-by-cell contents. */
  lemma RowsCells(m: Matrix, r: Matrix, values: seq<seq<real>>, width: nat, n: nat)
    requires Valid(m) && Valid(r) && SameShape(r, m) && 0 < n <= |values| && width == |values[0]|
    requires forall i :: 0 <= i < n ==> |values[i]| >= width
    requires RowsHold(m, r, values, width, n) && RowsKeep(m, r, width, n)
    ensures width <= m.columns ==>
              forall i: nat, j: nat :: i < m.rows && j < m.columns ==>
                Get(r, i, j) == if i < n && j < width then values[i][j] else Get(m, i, j)
  {
    forall i: nat, j: nat | width <= m.columns && i < m.rows && j < m.columns
      ensures Get(r, i, j) == if i < n && j < width then values[i][j] else Get(m, i, j)
    {
      var k := Idx(m.columns, i, j);
      if !(i < n && j < width) {
        forall i' | 0 <= i' < n
          ensures !(Idx(m.columns, i', 0) <= k < Idx(m.columns, i', 0) + width)
        {
          if Idx(m.columns, i', 0) <= k < Idx(m.columns, i', 0) + width {
            IdxInjective(m.columns, i', k - Idx(m.columns, i', 0), i, j);
          }
        }
        assert RowsMiss(m.columns, width, n, k);
      }
    }
  }

  /**
    `init(_ values:)`: a |values| x |values[0]| matrix holding the nested rows. The original
    reads `values[0][0]` for the initial fill, so both dimensions must be at least 1.
   */
  function FromRows(values: seq<seq<real>>): (m: Matrix)
    requires |values| > 0 && |values[0]| > 0
    requires forall i :: 0 <= i < |values| ==> |values[i]| >= |values[0]|
    ensures Valid(m) && m.rows == |values| && m.columns == |values[0]|
    ensures forall i: nat, j: nat :: i < m.rows && j < m.columns ==> Get(m, i, j) == values[i][j]
  {
    SetRows(Fill(|values|, |values[0]|, values[0][0]), values)
  }

  /**
    `setAt(row:to:)`: writes `values[j]` at flat position `row * columns + j`. Without a
    length check, values longer than a row run on into the following rows.
   */
  function SetRow(m: Matrix, row: nat, values: seq<real>): (r: Matrix)
    requires Valid(m)
    requires |values| == 0 || Idx(m.columns, row, 0) + |values| <= |m.buffer|
    ensures Valid(r) && SameShape(r, m) && |r.buffer| == |m.buffer|
    ensures forall k :: 0 <= k < |m.buffer| ==>
              r.buffer[k] == if Idx(m.columns, row, 0) <= k < Idx(m.columns, row, 0) + |values|
                             then values[k - Idx(m.columns, row, 0)]
                             else m.buffer[k]
    ensures forall i: nat, j: nat :: i < m.rows && j < m.columns ==>
              Get(r, i, j) == if Idx(m.columns, row, 0) <= Idx(m.columns, i, j) < Idx(m.columns, row, 0) + |values|
                              then values[Idx(m.columns, i, j) - Idx(m.columns, row, 0)]
                              else Get(m, i, j)
    ensures |values| <= m.columns ==>
              forall i: nat, j: nat :: i < m.rows && j < m.columns ==>
                Get(r, i, j) == if i == row && j < |values| then values[j] else Get(m, i, j)
  {
    if |values| == 0 then m
    else
      var start := Idx(m.columns, row, 0);
      var r := m.(buffer := m.buffer[..start] + values + m.buffer[start + |values|..]);
      SetRowCells(m, row, values, r);
      r
  }

  lemma SetRowCells(m: Matrix, row: nat, values: seq<real>, r: Matrix)
    requires Valid(m) && |values| > 0 && Idx(m.columns, row, 0) + |values| <= |m.buffer|
    requires r == m.(buffer := m.buffer[..Idx(m.columns, row, 0)] + values + m.buffer[Idx(m.columns, row, 0) + |values|..])
    ensures Valid(r)
    ensures |values| <= m.columns ==>
              forall i: nat, j: nat :: i < m.rows && j < m.columns ==>
                Get(r, i, j) == if i == row && j < |values| then values[j] else Get(m, i, j)
  {
    if |values| <= m.columns {
      forall i: nat, j: nat | i < m.rows && j < m.columns
        ensures Get(r, i, j) == if i == row && j < |values| then values[j] else Get(m, i, j)
      {
        var start, k := Idx(m.columns, row, 0), Idx(m.columns, i, j);
        if start <= k < start + |values| {
          IdxInjective(m.columns, row, k - start, i, j);
        }
      }
    }
  }

  /**
    `setAt(column:to:)`: for i < |values|, in order, writes `values[i]` at flat position
    i * columns + column. Only the flat position is checked, so a column past the last one
    writes into the following rows; within range, this is cell (i, column).
   */
  function SetColumn(m: Matrix, column: nat, values: seq<real>): (r: Matrix)
    requires Valid(m)
    requires |values| == 0 || Idx(m.columns, |values| - 1, column) < |m.buffer|
    ensures Valid(r) && SameShape(r, m)
    ensures ColumnHolds(m, r, column, values) && ColumnKeeps(m, r, column, values)
    ensures column < m.columns ==>
              forall i: nat, j: nat :: i < m.rows && j < m.columns ==>
                Get(r, i, j) == if j == column && i < |values| then values[i] else Get(m, i, j)
  {
    if |values| == 0 then m
    else
      var n := |values|;
      var prev := SetColumn(m, column, values[..n - 1]);
      var r := Set(prev, n - 1, column, values[n - 1]);
      ColumnStepHolds(m, column, values, prev, r);
      ColumnStepKeeps(m, column, values, prev, r);
      ColumnCells(m, column, values, r);
      r
  }

  /** Every write has landed: position i * columns + column holds values[i]. */
  predicate ColumnHolds(m: Matrix, r: Matrix, column: nat, values: seq<real>) {
    && |r.buffer| == |m.buffer|
    && forall i :: 0 <= i < |values| ==>
         Idx(m.columns, i, column) < |r.buffer| && r.buffer[Idx(m.columns, i, column)] == values[i]
  }

  /** Every position no write reaches is unchanged. */
  predicate ColumnKeeps(m: Matrix, r: Matrix, column: nat, values: seq<real>) {
    && |r.buffer| == |m.buffer|
    && forall k :: 0 <= k < |m.buffer| && (forall i :: 0 <= i < |values| ==> Idx(m.columns, i, column) != k) ==>
         r.buffer[k] == m.buffer[k]
  }

  /** Writing values[n - 1] last keeps the earlier writes, which sit at lower positions. */
  lemma ColumnStepHolds(m: Matrix, column: nat, values: seq<real>, prev: Matrix, r: Matrix)
    requires Valid(m) && Valid(prev) && SameShape(prev, m) && |values| > 0
    requires Idx(m.columns, |values| - 1, column) < |m.buffer|
    requires ColumnHolds(m, prev, column, values[..|values| - 1])
    requires r == Set(prev, |values| - 1, column, values[|values| - 1])
    ensures ColumnHolds(m, r, column, values)
  {
    var n := |values|;
    TimesPositive(m.rows, m.columns);
    forall i | 0 <= i < n
      ensures Idx(m.columns, i, column) < |r.buffer| && r.buffer[Idx(m.columns, i, column)] == values[i]
    {
      if i < n - 1 {
        RowBefore(m.columns, i, n - 1);
        assert values[..n - 1][i] == values[i];
      }
    }
  }

  lemma ColumnStepKeeps(m: Matrix, column: nat, values: seq<real>, prev: Matrix, r: Matrix)
    requires Valid(m) && Valid(prev) && SameShape(prev, m) && |values| > 0
    requires Idx(m.columns, |values| - 1, column) < |m.buffer|
    requires ColumnKeeps(m, prev, column, values[..|values| - 1])
    requires r == Set(prev, |values| - 1, column, values[|values| - 1])
    ensures ColumnKeeps(m, r, column, values)
  {
  }

  /** Within the columns, the flat facts are the cell-by-cell contents. */
  lemma ColumnCells(m: Matrix, column: nat, values: seq<real>, r: Matrix)
    requires Valid(m) && Valid(r) && SameShape(r, m)
    requires ColumnHolds(m, r, column, values) && ColumnKeeps(m, r, column, values)
    ensures column < m.columns ==>
              forall i: nat, j: nat :: i < m.rows && j < m.columns ==>
                Get(r, i, j) == if j == column && i < |values| then values[i] else Get(m, i, j)
  {
    forall i: nat, j: nat | column < m.columns && i < m.rows && j < m.columns
      ensures Get(r, i, j) == if j == column && i < |values| then values[i] else Get(m, i, j)
    {
      if !(j == column && i < |values|) {
        forall i' | 0 <= i' < |values|
          ensures Idx(m.columns, i', column) != Idx(m.columns, i, j)
        {
          if Idx(m.columns, i', column) == Idx(m.columns, i, j) {
            IdxInjective(m.columns, i', column, i, j);
          }
        }
      }
    }
  }

  // ---------------------------------------------------------------------------
  // Per-cell transforms: apply and map

  /** The contents `apply(with:)` leaves behind: cell (i, j) becomes `f(i, j, old cell)`. */
  function Apply(m: Matrix, f: (nat, nat, real) -> real): (r: Matrix)
    requires Valid(m)
    ensures Valid(r) && SameShape(r, m)
    ensures forall i: nat, j: nat :: i < m.rows && j < m.columns ==> Get(r, i, j) == f(i, j, Get(m, i, j))
  {
    Generate(m.rows, m.columns, (i: nat, j: nat) requires i < m.rows && j < m.columns => f(i, j, Get(m, i, j)))
  }

  /**
    `apply(with:)` as the original runs it: a row-major pass that overwrites each cell in
    place, reading each cell before it is written.
   */
  method ApplyInPlace(m: Matrix, f: (nat, nat, real) -> real) returns (r: Matrix)
    requires Valid(m)
    ensures r == Apply(m, f)
  {
    r := m;
    for i := 0 to m.rows
      invariant Valid(r) && SameShape(r, m)
      invariant forall a: nat, b: nat :: a < m.rows && b < m.columns ==>
                  Get(r, a, b) == if a < i then f(a, b, Get(m, a, b)) else Get(m, a, b)
    {
      for j := 0 to m.columns
        invariant Valid(r) && SameShape(r, m)
        invariant forall a: nat, b: nat :: a < m.rows && b < m.columns ==>
                    Get(r, a, b) == if a < i || (a == i && b < j) then f(a, b, Get(m, a, b)) else Get(m, a, b)
      {
        var before := r;
        r := Set(r, i, j, f(i, j, Get(r, i, j)));
        forall a: nat, b: nat | a < m.rows && b < m.columns
          ensures Get(r, a, b) == if a < i || (a == i && b <= j) then f(a, b, Get(m, a, b)) else Get(m, a, b)
        {
          SetGet(before, i, j, f(i, j, Get(before, i, j)), a, b);
        }
      }
    }
    Extensionality(r, Apply(m, f));
  }

  /**
    `map(with:)`: a new matrix of the same shape with cell (i, j) = `f(i, j, old cell)`,
    the contents `apply` produces in place; the matrix it is called on is a value and stays
    as it was. The original seeds the new matrix with cell (0, 0), so it must not be empty.
   */
  function Map(m: Matrix, f: (nat, nat, real) -> real): (r: Matrix)
    requires Valid(m) && |m.buffer| > 0
    ensures Valid(r) && SameShape(r, m)
    ensures forall i: nat, j: nat :: i < m.rows && j < m.columns ==> Get(r, i, j) == f(i, j, Get(m, i, j))
  {
    Apply(m, f)
  }

  // ---------------------------------------------------------------------------
  // Transpose

  /**
    `transpose()`: the columns x rows matrix with cell (j, i) = cell (i, j). The original
    seeds the result with `buffer[0]`, so the matrix must not be empty.
   */
  function Transpose(m: Matrix): (r: Matrix)
    requires Valid(m) && |m.buffer| > 0
    ensures Valid(r) && r.rows == m.columns && r.columns == m.rows && |r.buffer| > 0
    ensures forall i: nat, j: nat :: i < m.rows && j < m.columns ==> Get(r, j, i) == Get(m, i, j)
  {
    TimesPositive(m.rows, m.columns);
    TimesPositive(m.columns, m.rows);
    Generate(m.columns, m.rows, (i: nat, j: nat) requires i < m.columns && j < m.rows => Get(m, j, i))
  }

  /** Transposing twice gives back the original matrix. */
  lemma TransposeTwice(m: Matrix)
    requires Valid(m) && |m.buffer| > 0
    ensures Transpose(Transpose(m)) == m
  {
    Extensionality(Transpose(Transpose(m)), m);
  }
}
