/**
  Row-major layout of a table of cells f(x, y): the rows for each x of `xs`,
  in order, each holding the cells for every y of `ys`. Kept apart from the
  number model so that its index arithmetic is proved on its own.
*/
module RowMajor {

  /** Position of cell (i, j) in a row-major table whose rows have n cells. */
  function Offset(i: int, j: int, n: int): int
  {
    i * n + j
  }

  /** Row i + 1 starts n places after row i. */
  lemma OffsetNextRow(i: int, j: int, n: int)
    ensures Offset(i + 1, j, n) == n + Offset(i, j, n)
  {
  }

  /** The cells of a table with m rows of n cells lie at offsets 0 .. m * n - 1. */
  lemma OffsetBound(i: int, j: int, m: int, n: int)
    requires 0 <= i < m && 0 <= j < n
    ensures 0 <= Offset(i, j, n) < m * n
  {
    assert Offset(i, j, n) < (i + 1) * n;
    assert (i + 1) * n <= m * n;
  }

  /** One row followed by m - 1 rows of n cells has m * n cells. */
  lemma RowsLength(m: int, n: int)
    ensures n + (m - 1) * n == m * n
  {
  }

  /**
    Row-major indexing of one row followed by the remaining rows, for any
    cell function f: cell (i, j) sits at offset i * |ys| + j.
  */
  lemma {:induction false} RowMajorIndex<X, Y, T>(xs: seq<X>, ys: seq<Y>, f: (X, Y) -> T, row: seq<T>, rest: seq<T>)
    requires |xs| > 0
    requires |row| == |ys| && forall j :: 0 <= j < |ys| ==> row[j] == f(xs[0], ys[j])
    requires |rest| == (|xs| - 1) * |ys|
    requires forall i, j :: 0 <= i < |xs| - 1 && 0 <= j < |ys| ==>
               Offset(i, j, |ys|) < |rest| && rest[Offset(i, j, |ys|)] == f(xs[1..][i], ys[j])
    ensures |row + rest| == |xs| * |ys|
    ensures forall i, j :: 0 <= i < |xs| && 0 <= j < |ys| ==>
              Offset(i, j, |ys|) < |row + rest| && (row + rest)[Offset(i, j, |ys|)] == f(xs[i], ys[j])
  {
    RowsLength(|xs|, |ys|);
    forall i, j | 0 <= i < |xs| && 0 <= j < |ys|
      ensures Offset(i, j, |ys|) < |row + rest| && (row + rest)[Offset(i, j, |ys|)] == f(xs[i], ys[j])
    {
      OffsetBound(i, j, |xs|, |ys|);
      if i == 0 {
        assert Offset(0, j, |ys|) == j;
      } else {
        OffsetNextRow(i - 1, j, |ys|);
        assert xs[1..][i - 1] == xs[i];
      }
    }
  }
}
