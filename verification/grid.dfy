/** Row-major addressing of the rover's N x N grid.
    A cell index i stands for the cell at row floor(i / N), column i mod N.
    Indices are natural numbers, so JavaScript's Math.floor(i / N) and i % N
    agree with Dafny's / and %. */
module Grid {

  /** The row of cell i: the unique r with r * n <= i < (r + 1) * n. */
  function Row(i: nat, n: nat): (r: nat)
    requires n > 0
    ensures r * n <= i < r * n + n
  {
    i / n
  }

  /** The column of cell i: what is left of i once its whole rows are taken off. */
  function Col(i: nat, n: nat): (c: nat)
    requires n > 0
    ensures c < n
    ensures Row(i, n) * n + c == i
  {
    i % n
  }

  /** The index of the cell at (row, col). */
  function Index(row: nat, col: nat, n: nat): nat
  {
    row * n + col
  }

  /** Decoding an encoded cell gives back its row and column. */
  lemma DecodeIndex(row: nat, col: nat, n: nat)
    requires col < n
    ensures Row(Index(row, col, n), n) == row
    ensures Col(Index(row, col, n), n) == col
  {
    var i := Index(row, col, n);
    var r := Row(i, n);
    if r < row {
      MulMonotone(r + 1, row, n);
      assert false;
    } else if r > row {
      MulMonotone(row + 1, r, n);
      assert false;
    }
  }

  /** Encoding the decoded row and column of a cell gives back the cell. */
  lemma EncodeDecode(i: nat, n: nat)
    requires n > 0
    ensures Index(Row(i, n), Col(i, n), n) == i
  {
  }

  /** A cell lies on the grid exactly when its row does. */
  lemma InGridIffRow(i: nat, n: nat)
    requires n > 0
    ensures i < n * n <==> Row(i, n) < n
  {
    var r := Row(i, n);
    if r < n {
      MulMonotone(r + 1, n, n);
    } else {
      MulMonotone(n, r, n);
    }
  }

  /** Every row and column below n names a cell of the grid. */
  lemma IndexInGrid(row: nat, col: nat, n: nat)
    requires row < n && col < n
    ensures Index(row, col, n) < n * n
  {
    MulMonotone(row + 1, n, n);
  }

  lemma MulMonotone(a: nat, b: nat, n: nat)
    requires a <= b
    ensures a * n <= b * n
  {
  }

  /** b is one step right of a, or one step down from a. */
  predicate StepRightOrDown(a: nat, b: nat, n: nat)
    requires n > 0
  {
    (Row(b, n) == Row(a, n) && Col(b, n) == Col(a, n) + 1) ||
    (Col(b, n) == Col(a, n) && Row(b, n) == Row(a, n) + 1)
  }
}
