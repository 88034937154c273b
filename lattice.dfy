/** The spin buffer of the lattice: how src/model.rs maps a (column, row)
    pair to a position in its flat `Vec<i8>`, and the sums over that buffer
    that the cached magnetisation and the absolute magnetisation stand for. */
module Lattice {

  import Arith

  /** The position spin and set_spin use for a wrapped (column, row) pair:
      `col * cols + row`. The stride is `cols`, although a column of the
      buffer holds `rows` cells. */
  function FlatIndex(col: int, row: int, cols: int): int {
    col * cols + row
  }

  /** Column-major layout with the stride a column of `rows` cells needs. */
  function ColumnMajorIndex(col: int, row: int, rows: int): int {
    col * rows + row
  }

  /** Whenever the grid is at least as tall as it is wide, every in-range
      pair lands inside the buffer of `cols * rows` cells. */
  lemma FlatIndexInBounds(col: int, row: int, cols: int, rows: int)
    requires 1 <= cols <= rows
    requires 0 <= col < cols && 0 <= row < rows
    ensures 0 <= FlatIndex(col, row, cols) < cols * rows
  {
    Arith.MulMonotone(col, cols - 1, cols);
    Arith.MulMonotone(0, col, cols);
    Arith.MulMonotone(0, cols - 1, rows - cols);
    assert (cols - 1) * (rows - cols) == cols * rows - cols * cols - rows + cols;
    assert (cols - 1) * cols == cols * cols - cols;
  }

  /** On a square grid the flat index is a bijection between in-range pairs
      and buffer positions: division and remainder by `n` recover the pair,
      and every position is reached. */
  lemma FlatIndexSquare(col: int, row: int, n: int)
    requires 0 <= col < n && 0 <= row < n
    ensures 0 <= FlatIndex(col, row, n) < n * n
    ensures FlatIndex(col, row, n) / n == col && FlatIndex(col, row, n) % n == row
  {
    FlatIndexInBounds(col, row, n, n);
    Arith.DivModUnique(FlatIndex(col, row, n), n, col, row);
  }

  /** Every buffer position of a square grid is the flat index of the pair
      its quotient and remainder by `n` give. */
  lemma SquareCell(k: int, n: int)
    requires n >= 1 && 0 <= k < n * n
    ensures 0 <= k / n < n && 0 <= k % n < n
    ensures FlatIndex(k / n, k % n, n) == k
  {
    assert k == n * (k / n) + k % n;
    if k / n >= n {
      Arith.MulMonotone(n, k / n, n);
    }
  }

  /** On a grid taller than it is wide, two different cells share a buffer
      position: (0, 2) and (1, 0) on a 2-column, 3-row grid. */
  lemma FlatIndexAliasesWhenTall()
    ensures var cols, rows := 2, 3;
      && 0 <= 0 < cols && 0 <= 2 < rows && 0 <= 1 < cols && 0 <= 0 < rows
      && FlatIndex(0, 2, cols) == FlatIndex(1, 0, cols)
  {
  }

  /** On a grid wider than it is tall, an in-range pair lands outside the
      buffer: (2, 1) on a 3-column, 2-row grid gives position 7 of 6. */
  lemma FlatIndexOverrunsWhenWide()
    ensures var cols, rows := 3, 2;
      && 0 <= 2 < cols && 0 <= 1 < rows
      && FlatIndex(2, 1, cols) >= cols * rows
  {
  }

  /** The column-major index with stride `rows` is a bijection between the
      in-range pairs of any grid and the buffer positions. */
  lemma ColumnMajorIndexBijective(col: int, row: int, cols: int, rows: int)
    requires 0 <= col < cols && 0 <= row < rows
    ensures 0 <= ColumnMajorIndex(col, row, rows) < cols * rows
    ensures ColumnMajorIndex(col, row, rows) / rows == col
    ensures ColumnMajorIndex(col, row, rows) % rows == row
  {
    Arith.MulMonotone(col, cols - 1, rows);
    Arith.MulMonotone(0, col, rows);
    assert (cols - 1) * rows == cols * rows - rows;
    Arith.DivModUnique(ColumnMajorIndex(col, row, rows), rows, col, row);
  }

  /** Every buffer position is reached by the column-major index. */
  lemma ColumnMajorIndexOnto(k: int, cols: int, rows: int)
    requires cols >= 0 && rows >= 0 && 0 <= k < cols * rows
    ensures rows >= 1 && 0 <= k / rows < cols && 0 <= k % rows < rows
    ensures ColumnMajorIndex(k / rows, k % rows, rows) == k
  {
    assert k == rows * (k / rows) + k % rows;
    if k / rows >= cols {
      Arith.MulMonotone(cols, k / rows, rows);
    }
  }

  /** Every cell of the buffer holds a spin, +1 or -1. */
  predicate AllSpins(s: seq<int>) {
    forall k :: 0 <= k < |s| ==> s[k] == 1 || s[k] == -1
  }

  /** The total of the buffer: the magnetisation. */
  function Sum(s: seq<int>): int {
    if s == [] then 0 else Sum(s[..|s| - 1]) + s[|s| - 1]
  }

  /** The total of the absolute values of the buffer. */
  function AbsSum(s: seq<int>): int {
    if s == [] then 0 else AbsSum(s[..|s| - 1]) + (if s[|s| - 1] < 0 then -s[|s| - 1] else s[|s| - 1])
  }

  /** Writing `v` at position `p` changes the total by `v - s[p]`: the
      update rule of the cached magnetisation. */
  lemma {:induction false} SumUpdate(s: seq<int>, p: int, v: int)
    requires 0 <= p < |s|
    ensures Sum(s[p := v]) == Sum(s) - s[p] + v
  {
    var t := s[p := v];
    if p < |s| - 1 {
      assert t[..|t| - 1] == s[..|s| - 1][p := v];
      SumUpdate(s[..|s| - 1], p, v);
    } else {
      assert t[..|t| - 1] == s[..|s| - 1];
    }
  }

  /** A buffer of spins has a total between `-|s|` and `|s|`, of the same
      parity as `|s|`. */
  lemma {:induction false} SumOfSpinsBounds(s: seq<int>)
    requires AllSpins(s)
    ensures -|s| <= Sum(s) <= |s|
    ensures (Sum(s) + |s|) % 2 == 0
  {
    if s != [] {
      SumOfSpinsBounds(s[..|s| - 1]);
    }
  }

  /** The all-up buffer of length n totals n. */
  lemma {:induction false} SumAllUp(n: nat)
    ensures Sum(seq(n, _ => 1)) == n
  {
    if n > 0 {
      assert seq(n, _ => 1)[..n - 1] == seq(n - 1, _ => 1);
      SumAllUp(n - 1);
    }
  }

  /** Every spin has absolute value 1, so the absolute total of a buffer of
      spins is its length: the absolute magnetisation per cell is always 1. */
  lemma {:induction false} AbsSumOfSpins(s: seq<int>)
    requires AllSpins(s)
    ensures AbsSum(s) == |s|
  {
    if s != [] {
      AbsSumOfSpins(s[..|s| - 1]);
    }
  }
}
