/**
  The operators of the matrix type: matrix product, entrywise and scalar-broadcast
  `+`, `-`, `*`, and `maxRow`. As in the original, operand shapes are not checked:
  the right operand is read through its own row-major layout, and the only
  requirement is that every position read exists (`CoversShape`).
 */
module MatrixOps {
  import opened Matrices

  /**
    Every cell (i, j) with i < rows and j < columns has its flat position, computed with
    m's own column count, inside m's buffer. Stated on the last such cell, which has the
    largest position.
   */
  predicate CoversShape(m: Matrix, rows: nat, columns: nat) {
    rows == 0 || columns == 0 || Idx(m.columns, rows - 1, columns - 1) < |m.buffer|
  }

  lemma CoversCells(m: Matrix, rows: nat, columns: nat)
    requires CoversShape(m, rows, columns)
    ensures forall i: nat, j: nat :: i < rows && j < columns ==> Idx(m.columns, i, j) < |m.buffer|
  {
    forall i: nat, j: nat | i < rows && j < columns
      ensures Idx(m.columns, i, j) < |m.buffer|
    {
      TimesMonotone(i, rows - 1, m.columns);
    }
  }

  /** A valid matrix covers its own shape, and so every shape it contains. */
  lemma CoversOwnShape(m: Matrix, rows: nat, columns: nat)
    requires Valid(m) && rows <= m.rows && columns <= m.columns
    ensures CoversShape(m, rows, columns)
  {
  }

  lemma CoversSmaller(m: Matrix, rows: nat, columns: nat, rows2: nat, columns2: nat)
    requires CoversShape(m, rows, columns) && rows2 <= rows && columns2 <= columns
    ensures CoversShape(m, rows2, columns2)
  {
    CoversCells(m, rows, columns);
  }

  // ---------------------------------------------------------------------------
  // Matrix product

  /** The sum over k < n of lhs(i, k) * rhs(k, j), accumulated from 0 in increasing k. */
  function Dot(lhs: Matrix, rhs: Matrix, i: nat, j: nat, n: nat): real
    requires Valid(lhs) && i < lhs.rows && n <= lhs.columns
    requires Valid(rhs) && j < rhs.columns && n <= rhs.rows
    decreases n
  {
    if n == 0 then 0.0
    else Dot(lhs, rhs, i, j, n - 1) + Get(lhs, i, n - 1) * Get(rhs, n - 1, j)
  }

  /**
    Matrix `*` matrix: the lhs.rows x rhs.columns matrix whose cell (i, j) is the sum over
    k < lhs.columns of lhs(i, k) * rhs(k, j). The original seeds the result with
    `lhs.buffer[0]`, so lhs must not be empty. It reads rhs(k, j) for every k < lhs.columns
    and j < rhs.columns, which stays inside rhs exactly when rhs has at least lhs.columns
    rows (or no columns at all); rows of rhs beyond lhs.columns are never read.
   */
  function Product(lhs: Matrix, rhs: Matrix): (r: Matrix)
    requires Valid(lhs) && |lhs.buffer| > 0
    requires Valid(rhs) && (rhs.columns == 0 || lhs.columns <= rhs.rows)
    ensures Valid(r) && r.rows == lhs.rows && r.columns == rhs.columns
    ensures forall i: nat, j: nat :: i < r.rows && j < r.columns ==> Get(r, i, j) == Dot(lhs, rhs, i, j, lhs.columns)
  {
    Generate(lhs.rows, rhs.columns, (i: nat, j: nat) requires i < lhs.rows && j < rhs.columns =>
      Dot(lhs, rhs, i, j, lhs.columns))
  }

  /**
    The state of the triple loop before cell (i, j): every cell of an earlier row, and every
    earlier cell of row i, holds its sum; the rest still hold the initial zero.
   */
  predicate FilledBefore(r: Matrix, lhs: Matrix, rhs: Matrix, i: nat, j: nat) {
    && Valid(lhs) && Valid(rhs) && (rhs.columns == 0 || lhs.columns <= rhs.rows)
    && Valid(r) && r.rows == lhs.rows && r.columns == rhs.columns
    && forall a: nat, b: nat :: a < r.rows && b < r.columns ==>
         Get(r, a, b) == if a < i || (a == i && b < j) then Dot(lhs, rhs, a, b, lhs.columns) else 0.0
  }

  /** Storing the sum of cell (i, j) moves the loop state one cell on. */
  lemma FillNext(r: Matrix, lhs: Matrix, rhs: Matrix, i: nat, j: nat)
    requires FilledBefore(r, lhs, rhs, i, j) && i < r.rows && j < r.columns
    ensures Idx(r.columns, i, j) < |r.buffer|
    ensures FilledBefore(Set(r, i, j, Dot(lhs, rhs, i, j, lhs.columns)), lhs, rhs, i, j + 1)
  {
    IdxBelow(r.rows, r.columns, i, j);
    var sum := Dot(lhs, rhs, i, j, lhs.columns);
    var next := Set(r, i, j, sum);
    forall a: nat, b: nat | a < next.rows && b < next.columns
      ensures Get(next, a, b) == if a < i || (a == i && b < j + 1) then Dot(lhs, rhs, a, b, lhs.columns) else 0.0
    {
      SetGet(r, i, j, sum, a, b);
    }
  }

  /** The inner loop of the original: the sum over k < lhs.columns of lhs(i, k) * rhs(k, j). */
  method DotLoop(lhs: Matrix, rhs: Matrix, i: nat, j: nat) returns (sum: real)
    requires Valid(lhs) && i < lhs.rows && Valid(rhs) && j < rhs.columns && lhs.columns <= rhs.rows
    ensures sum == Dot(lhs, rhs, i, j, lhs.columns)
  {
    sum := 0.0;
    for k := 0 to lhs.columns
      invariant sum == Dot(lhs, rhs, i, j, k)
    {
      sum := sum + Get(lhs, i, k) * Get(rhs, k, j);
    }
  }

  /** The triple loop of the original, shown to compute `Product`. */
  method Multiply(lhs: Matrix, rhs: Matrix) returns (r: Matrix)
    requires Valid(lhs) && |lhs.buffer| > 0
    requires Valid(rhs) && (rhs.columns == 0 || lhs.columns <= rhs.rows)
    ensures r == Product(lhs, rhs)
  {
    r := Fill(lhs.rows, rhs.columns, 0.0);
    for i := 0 to r.rows
      invariant FilledBefore(r, lhs, rhs, i, 0)
    {
      for j := 0 to r.columns
        invariant FilledBefore(r, lhs, rhs, i, j)
      {
        var sum := DotLoop(lhs, rhs, i, j);
        FillNext(r, lhs, rhs, i, j);
        r := Set(r, i, j, sum);
      }
    }
    Extensionality(r, Product(lhs, rhs));
  }

  /** The n x n identity matrix. */
  function Identity(n: nat): (r: Matrix)
    ensures IsIdentity(r, n)
  {
    Generate(n, n, (i: nat, j: nat) => if i == j then 1.0 else 0.0)
  }

  /** m is the n x n identity matrix. */
  predicate IsIdentity(m: Matrix, n: nat) {
    && Valid(m) && m.rows == n && m.columns == n
    && forall i: nat, j: nat :: i < n && j < n ==> Get(m, i, j) == if i == j then 1.0 else 0.0
  }

  lemma {:induction false} DotIdentityRight(a: Matrix, id: Matrix, i: nat, j: nat, n: nat)
    requires Valid(a) && i < a.rows && j < a.columns && n <= a.columns && IsIdentity(id, a.columns)
    ensures Dot(a, id, i, j, n) == if j < n then Get(a, i, j) else 0.0
    decreases n
  {
    if n > 0 {
      DotIdentityRight(a, id, i, j, n - 1);
      var x, y := Get(a, i, n - 1), Get(id, n - 1, j);
      assert Dot(a, id, i, j, n) == Dot(a, id, i, j, n - 1) + x * y;
      if n - 1 == j {
        assert y == 1.0;
      } else {
        assert y == 0.0;
      }
    }
  }

  lemma {:induction false} DotIdentityLeft(a: Matrix, id: Matrix, i: nat, j: nat, n: nat)
    requires Valid(a) && i < a.rows && j < a.columns && n <= a.rows && IsIdentity(id, a.rows)
    ensures Dot(id, a, i, j, n) == if i < n then Get(a, i, j) else 0.0
    decreases n
  {
    if n > 0 {
      DotIdentityLeft(a, id, i, j, n - 1);
      var x, y := Get(id, i, n - 1), Get(a, n - 1, j);
      assert Dot(id, a, i, j, n) == Dot(id, a, i, j, n - 1) + x * y;
      if i == n - 1 {
        assert x == 1.0;
      } else {
        assert x == 0.0;
      }
    }
  }

  /** Multiplying by the identity on the right gives back the matrix. */
  lemma ProductIdentityRight(a: Matrix)
    requires Valid(a) && |a.buffer| > 0
    ensures Product(a, Identity(a.columns)) == a
  {
    var id := Identity(a.columns);
    var p := Product(a, id);
    forall i: nat, j: nat | i < a.rows && j < a.columns
      ensures Get(p, i, j) == Get(a, i, j)
    {
      DotIdentityRight(a, id, i, j, a.columns);
    }
    Extensionality(p, a);
  }

  /** Multiplying by the identity on the left gives back the matrix. */
  lemma ProductIdentityLeft(a: Matrix)
    requires Valid(a) && |a.buffer| > 0
    ensures |Identity(a.rows).buffer| > 0
    ensures Product(Identity(a.rows), a) == a
  {
    TimesPositive(a.rows, a.columns);
    var id := Identity(a.rows);
    IdxBelow(a.rows, a.rows, 0, 0);
    var p := Product(id, a);
    forall i: nat, j: nat | i < a.rows && j < a.columns
      ensures Get(p, i, j) == Get(a, i, j)
    {
      DotIdentityLeft(a, id, i, j, a.rows);
    }
    Extensionality(p, a);
  }

  /**
    A product of two column vectors (lhs n x 1, rhs m x 1) reads only rhs(0, 0): cell i is
    lhs(i, 0) * rhs(0, 0). This is how the original's `*` behaves where a cellwise product
    was meant.
   */
  lemma ColumnVectorProduct(lhs: Matrix, rhs: Matrix, i: nat)
    requires Valid(lhs) && Valid(rhs) && lhs.columns == 1 && rhs.columns == 1
    requires i < lhs.rows && rhs.rows >= 1
    ensures |lhs.buffer| > 0
    ensures Get(Product(lhs, rhs), i, 0) == Get(lhs, i, 0) * Get(rhs, 0, 0)
  {
    IdxBelow(lhs.rows, 1, i, 0);
    assert Dot(lhs, rhs, i, 0, 1) == Dot(lhs, rhs, i, 0, 0) + Get(lhs, i, 0) * Get(rhs, 0, 0);
  }

  /**
    The cellwise (Hadamard) product of two matrices of one shape. Both share one layout,
    so it multiplies the buffers position by position.
   */
  function Hadamard(a: Matrix, b: Matrix): (r: Matrix)
    requires Valid(a) && Valid(b) && SameShape(a, b)
    ensures Valid(r) && SameShape(r, a)
    ensures forall i: nat, j: nat :: i < a.rows && j < a.columns ==> Get(r, i, j) == Get(a, i, j) * Get(b, i, j)
  {
    a.(buffer := seq(|a.buffer|, k requires 0 <= k < |a.buffer| => a.buffer[k] * b.buffer[k]))
  }

  /**
    For two column vectors the original's product and the cellwise product differ as soon
    as rhs has a second cell different from its first: [1, 1] and [1, 2] give [1, 1], not [1, 2].
   */
  lemma ColumnProductIsNotHadamard()
    ensures var v := FromRows([[1.0], [1.0]]);
            var w := FromRows([[1.0], [2.0]]);
            |v.buffer| > 0 &&
            Get(Product(v, w), 1, 0) == 1.0 && Get(Hadamard(v, w), 1, 0) == 2.0
  {
    var v := FromRows([[1.0], [1.0]]);
    var w := FromRows([[1.0], [2.0]]);
    ColumnVectorProduct(v, w, 1);
  }

  // ---------------------------------------------------------------------------
  // Scalar product

  /**
    Matrix `*` scalar: every cell multiplied by s. The result has m's layout, so this is the
    buffer multiplied position by position. The original seeds the result with
    `lhs.buffer[0]`, so m must not be empty.
   */
  function Scale(m: Matrix, s: real): (r: Matrix)
    requires Valid(m) && |m.buffer| > 0
    ensures Valid(r) && SameShape(r, m)
    ensures forall i: nat, j: nat :: i < m.rows && j < m.columns ==> Get(r, i, j) == Get(m, i, j) * s
  {
    m.(buffer := seq(|m.buffer|, k requires 0 <= k < |m.buffer| => m.buffer[k] * s))
  }

  /** Scalar `*` matrix, computed as matrix `*` scalar. */
  function ScaleLeft(s: real, m: Matrix): (r: Matrix)
    requires Valid(m) && |m.buffer| > 0
    ensures Valid(r) && SameShape(r, m)
    ensures forall i: nat, j: nat :: i < m.rows && j < m.columns ==> Get(r, i, j) == s * Get(m, i, j)
  {
    Scale(m, s)
  }

  // ---------------------------------------------------------------------------
  // Entrywise sum and difference

  /**
    Matrix `+` matrix: a matrix of lhs's shape whose cell (i, j) is lhs(i, j) + rhs(i, j),
    rhs being read through its own layout. The original seeds the result with
    `lhs.buffer[0]`, so lhs must not be empty.
   */
  function Add(lhs: Matrix, rhs: Matrix): (r: Matrix)
    requires Valid(lhs) && |lhs.buffer| > 0 && CoversShape(rhs, lhs.rows, lhs.columns)
    ensures Valid(r) && SameShape(r, lhs)
    ensures forall i: nat, j: nat :: i < lhs.rows && j < lhs.columns ==>
              Idx(rhs.columns, i, j) < |rhs.buffer| && Get(r, i, j) == Get(lhs, i, j) + Get(rhs, i, j)
  {
    CoversCells(rhs, lhs.rows, lhs.columns);
    Generate(lhs.rows, lhs.columns, (i: nat, j: nat) requires i < lhs.rows && j < lhs.columns =>
      Get(lhs, i, j) + Get(rhs, i, j))
  }

  /** Matrix `-` matrix: like `Add`, with the cells subtracted. */
  function Sub(lhs: Matrix, rhs: Matrix): (r: Matrix)
    requires Valid(lhs) && |lhs.buffer| > 0 && CoversShape(rhs, lhs.rows, lhs.columns)
    ensures Valid(r) && SameShape(r, lhs)
    ensures forall i: nat, j: nat :: i < lhs.rows && j < lhs.columns ==>
              Idx(rhs.columns, i, j) < |rhs.buffer| && Get(r, i, j) == Get(lhs, i, j) - Get(rhs, i, j)
  {
    CoversCells(rhs, lhs.rows, lhs.columns);
    Generate(lhs.rows, lhs.columns, (i: nat, j: nat) requires i < lhs.rows && j < lhs.columns =>
      Get(lhs, i, j) - Get(rhs, i, j))
  }

  /**
    A column vector times a transposed column vector (n x 1 by 1 x m): the n x m matrix with
    cell (r, c) = d(r, 0) * a(c, 0).
   */
  lemma OuterProduct(d: Matrix, a: Matrix)
    requires Valid(d) && Valid(a) && d.columns == 1 && a.columns == 1 && d.rows > 0 && a.rows > 0
    ensures |d.buffer| > 0 && |a.buffer| > 0
    ensures var p := Product(d, Transpose(a));
            Valid(p) && p.rows == d.rows && p.columns == a.rows &&
            forall r: nat, c: nat :: r < d.rows && c < a.rows ==> Get(p, r, c) == Get(d, r, 0) * Get(a, c, 0)
  {
    TimesPositive(d.rows, 1);
    TimesPositive(a.rows, 1);
    var t := Transpose(a);
    var p := Product(d, t);
    forall r: nat, c: nat | r < d.rows && c < a.rows
      ensures Get(p, r, c) == Get(d, r, 0) * Get(a, c, 0)
    {
      assert Get(t, 0, c) == Get(a, c, 0);
      assert Dot(d, t, r, c, 1) == Dot(d, t, r, c, 0) + Get(d, r, 0) * Get(t, 0, c);
    }
  }

  /** Matrix `+` is commutative on matrices of one shape. */
  lemma AddCommutes(a: Matrix, b: Matrix)
    requires Valid(a) && Valid(b) && SameShape(a, b) && |a.buffer| > 0
    ensures CoversShape(b, a.rows, a.columns) && CoversShape(a, b.rows, b.columns) && |b.buffer| > 0
    ensures Add(a, b) == Add(b, a)
  {
    CoversOwnShape(a, a.rows, a.columns);
    CoversOwnShape(b, b.rows, b.columns);
    Extensionality(Add(a, b), Add(b, a));
  }

  /** Matrix `+` is associative on matrices of one shape. */
  lemma AddAssociates(a: Matrix, b: Matrix, c: Matrix)
    requires Valid(a) && Valid(b) && Valid(c) && SameShape(a, b) && SameShape(b, c) && |a.buffer| > 0
    ensures CoversShape(b, a.rows, a.columns) && CoversShape(c, a.rows, a.columns) && |b.buffer| > 0
    ensures |Add(a, b).buffer| > 0 && CoversShape(Add(b, c), a.rows, a.columns)
    ensures Add(Add(a, b), c) == Add(a, Add(b, c))
  {
    var ab, bc := Add(a, b), Add(b, c);
    AddSameShape(a, b);
    AddSameShape(b, c);
    AddSameShape(ab, c);
    AddSameShape(a, bc);
    SumsAssociate(a.buffer, b.buffer, c.buffer);
  }

  /** On matrices of one shape, `+` adds the buffers position by position. */
  lemma AddSameShape(a: Matrix, b: Matrix)
    requires Valid(a) && Valid(b) && SameShape(a, b) && |a.buffer| > 0
    ensures CoversShape(b, a.rows, a.columns)
    ensures var s := Add(a, b); Valid(s) && SameShape(s, a) && s.buffer == Sums(a.buffer, b.buffer)
  {
    CoversOwnShape(b, b.rows, b.columns);
    var s := Add(a, b);
    forall k | 0 <= k < |a.buffer|
      ensures s.buffer[k] == a.buffer[k] + b.buffer[k]
    {
      IdxOfPosition(a.rows, a.columns, k);
      var i, j := k / a.columns, k % a.columns;
      assert Get(s, i, j) == Get(a, i, j) + Get(b, i, j);
    }
  }

  /** Two sequences of one length added position by position. */
  function Sums(x: seq<real>, y: seq<real>): (z: seq<real>)
    requires |x| == |y|
    ensures |z| == |x| && forall k :: 0 <= k < |x| ==> z[k] == x[k] + y[k]
  {
    seq(|x|, k requires 0 <= k < |x| => x[k] + y[k])
  }

  lemma SumsAssociate(x: seq<real>, y: seq<real>, z: seq<real>)
    requires |x| == |y| == |z|
    ensures Sums(Sums(x, y), z) == Sums(x, Sums(y, z))
  {
  }

  /** Cell (i, j) of a sum, for one cell at a time. */
  lemma AddAt(lhs: Matrix, rhs: Matrix, i: nat, j: nat)
    requires Valid(lhs) && |lhs.buffer| > 0 && CoversShape(rhs, lhs.rows, lhs.columns)
    requires i < lhs.rows && j < lhs.columns
    ensures Idx(rhs.columns, i, j) < |rhs.buffer| && Get(Add(lhs, rhs), i, j) == Get(lhs, i, j) + Get(rhs, i, j)
  {
    CoversCells(rhs, lhs.rows, lhs.columns);
  }

  /** Subtracting what was added gives back every cell of the original. */
  lemma SubUndoesAdd(a: Matrix, b: Matrix)
    requires Valid(a) && Valid(b) && SameShape(a, b) && |a.buffer| > 0
    ensures CoversShape(b, a.rows, a.columns)
    ensures var s := Add(a, b);
            |s.buffer| > 0 && forall i: nat, j: nat :: i < a.rows && j < a.columns ==> Get(Sub(s, b), i, j) == Get(a, i, j)
  {
  }

  // ---------------------------------------------------------------------------
  // Scalar broadcast

  /** Matrix `+` scalar: s broadcast into a same-shaped matrix and added, so s is added to every cell. */
  function AddScalar(m: Matrix, s: real): (r: Matrix)
    requires Valid(m) && |m.buffer| > 0
    ensures Valid(r) && SameShape(r, m)
    ensures forall i: nat, j: nat :: i < m.rows && j < m.columns ==> Get(r, i, j) == Get(m, i, j) + s
  {
    Add(m, Fill(m.rows, m.columns, s))
  }

  /** Scalar `+` matrix, computed as matrix `+` scalar. */
  function ScalarAdd(s: real, m: Matrix): (r: Matrix)
    requires Valid(m) && |m.buffer| > 0
    ensures Valid(r) && SameShape(r, m)
    ensures forall i: nat, j: nat :: i < m.rows && j < m.columns ==> Get(r, i, j) == s + Get(m, i, j)
  {
    AddScalar(m, s)
  }

  /** Matrix `-` scalar: s is subtracted from every cell. */
  function SubScalar(m: Matrix, s: real): (r: Matrix)
    requires Valid(m) && |m.buffer| > 0
    ensures Valid(r) && SameShape(r, m)
    ensures forall i: nat, j: nat :: i < m.rows && j < m.columns ==> Get(r, i, j) == Get(m, i, j) - s
  {
    Sub(m, Fill(m.rows, m.columns, s))
  }

  /**
    Scalar `-` matrix as the original writes it: it returns `rhs - lhs`, so every cell is
    cell - s rather than s - cell.
   */
  function ScalarSub(s: real, m: Matrix): (r: Matrix)
    requires Valid(m) && |m.buffer| > 0
    ensures Valid(r) && SameShape(r, m)
    ensures forall i: nat, j: nat :: i < m.rows && j < m.columns ==> Get(r, i, j) == Get(m, i, j) - s
  {
    SubScalar(m, s)
  }

  /** Scalar `-` matrix as evidently intended: every cell is s - cell. */
  function ScalarMinus(s: real, m: Matrix): (r: Matrix)
    requires Valid(m) && |m.buffer| > 0
    ensures Valid(r) && SameShape(r, m)
    ensures forall i: nat, j: nat :: i < m.rows && j < m.columns ==> Get(r, i, j) == s - Get(m, i, j)
  {
    Generate(m.rows, m.columns, (i: nat, j: nat) requires i < m.rows && j < m.columns => s - Get(m, i, j))
  }

  /** What the original computes for s - M is exactly the negation of what was meant. */
  lemma ScalarSubIsNegated(s: real, m: Matrix)
    requires Valid(m) && |m.buffer| > 0
    ensures |ScalarMinus(s, m).buffer| > 0
    ensures ScalarSub(s, m) == Scale(ScalarMinus(s, m), -1.0)
  {
    Extensionality(ScalarSub(s, m), Scale(ScalarMinus(s, m), -1.0));
  }

  /** A concrete witness: 1 - [[0]] comes out as [[-1]] instead of [[1]]. */
  lemma ScalarSubWitness()
    ensures Get(ScalarSub(1.0, Fill(1, 1, 0.0)), 0, 0) == -1.0
    ensures Get(ScalarMinus(1.0, Fill(1, 1, 0.0)), 0, 0) == 1.0
  {
  }

  // ---------------------------------------------------------------------------
  // maxRow

  /**
    The position `maxRow`'s scan ends on: starting from position 0, it moves to a later
    position only on a strictly greater value. So the result is the first position of a
    maximal value.
   */
  function ArgMax(s: seq<real>): (k: nat)
    requires |s| > 0
    ensures k < |s|
    ensures forall i :: 0 <= i < |s| ==> s[i] <= s[k]
    ensures forall i :: 0 <= i < k ==> s[i] < s[k]
  {
    if |s| == 1 then 0
    else
      var k := ArgMax(s[..|s| - 1]);
      if s[|s| - 1] > s[k] then |s| - 1 else k
  }

  /** The values of one column, top to bottom. */
  function Column(m: Matrix, column: nat): (c: seq<real>)
    requires Valid(m) && column < m.columns
    ensures |c| == m.rows && forall i :: 0 <= i < m.rows ==> c[i] == Get(m, i, column)
  {
    seq(m.rows, i requires 0 <= i < m.rows => Get(m, i, column))
  }

  /**
    `maxRow(atCol:)`: the lowest row holding the largest value of the column. The original
    reads cell (0, column) first, so the matrix needs a row and the column must exist.
   */
  function MaxRow(m: Matrix, column: nat): (r: nat)
    requires Valid(m) && m.rows > 0 && column < m.columns
    ensures r < m.rows
    ensures forall i: nat :: i < m.rows ==> Get(m, i, column) <= Get(m, r, column)
    ensures forall i: nat :: i < r ==> Get(m, i, column) < Get(m, r, column)
  {
    var c := Column(m, column);
    var r := ArgMax(c);
    assert forall i: nat :: i < m.rows ==> c[i] == Get(m, i, column);
    r
  }

  /** The scan of the original, shown to return `MaxRow`. */
  method MaxRowScan(m: Matrix, column: nat) returns (index: nat)
    requires Valid(m) && m.rows > 0 && column < m.columns
    ensures index == MaxRow(m, column)
  {
    var max := Get(m, 0, column);
    index := 0;
    for i := 0 to m.rows
      invariant index < m.rows && max == Get(m, index, column)
      invariant index <= i
      invariant forall a: nat :: a < i ==> Get(m, a, column) <= max
      invariant forall a: nat :: a < index ==> Get(m, a, column) < max
    {
      var temp := Get(m, i, column);
      if temp > max {
        max := temp;
        index := i;
      }
    }
    MaxRowUnique(m, column, index);
  }

  /** The first position of a maximal value is unique. */
  lemma MaxRowUnique(m: Matrix, column: nat, k: nat)
    requires Valid(m) && m.rows > 0 && column < m.columns && k < m.rows
    requires forall i: nat :: i < m.rows ==> Get(m, i, column) <= Get(m, k, column)
    requires forall i: nat :: i < k ==> Get(m, i, column) < Get(m, k, column)
    ensures k == MaxRow(m, column)
  {
  }
}
