/** Grid geometry: a grid of side `dimension * dimension` cut into
    `dimension` by `dimension` blocks, indexed from 0. */
module Geometry {

  /** Products grow with their left factor. */
  lemma MulMonotone(a: int, b: int, d: int)
    requires a <= b && 0 <= d
    ensures a * d <= b * d
  {
    assert b * d - a * d == (b - a) * d;
  }

  /** The first index of the block holding index `i`: `(i // dimension) * dimension`. */
  function BlockStart(dimension: int, i: int): (s: int)
    requires 0 < dimension && 0 <= i < dimension * dimension
    ensures 0 <= s <= i < s + dimension <= dimension * dimension
  {
    QuotientBelow(dimension, i);
    MulMonotone(i / dimension, dimension - 1, dimension);
    (i / dimension) * dimension
  }

  /** An index below `dimension * dimension` has a quotient by `dimension` below
      `dimension`, and lies within `dimension` of its quotient's multiple. */
  lemma QuotientBelow(dimension: int, i: int)
    requires 0 < dimension && 0 <= i < dimension * dimension
    ensures 0 <= i / dimension < dimension
    ensures (i / dimension) * dimension <= i < (i / dimension) * dimension + dimension
  {
    var q := i / dimension;
    assert q * dimension <= i < q * dimension + dimension;
    if q >= dimension {
      MulMonotone(dimension, q, dimension);
    }
  }

  /** Index `j` lies in the same block as index `i` exactly when it lies in the
      `dimension` indices starting at `BlockStart(dimension, i)`. */
  lemma {:induction false} InBlock(dimension: int, i: int, j: int)
    requires 0 < dimension && 0 <= i < dimension * dimension && 0 <= j
    ensures BlockStart(dimension, i) <= j < BlockStart(dimension, i) + dimension <==> j / dimension == i / dimension
  {
    var q, q' := i / dimension, j / dimension;
    assert BlockStart(dimension, i) == q * dimension;
    assert q' * dimension <= j < q' * dimension + dimension;
    if q' > q {
      MulMonotone(q + 1, q', dimension);
    } else if q' < q {
      MulMonotone(q', q - 1, dimension);
    }
  }

  /** Cells (r, c) and (row, column) lie in the same block. */
  predicate SameBlock(dimension: int, row: int, column: int, r: int, c: int)
    requires 0 < dimension
  {
    r / dimension == row / dimension && c / dimension == column / dimension
  }

  /** (r, c) is a peer of (row, column): another cell of its row, its column or its block. */
  predicate Peer(dimension: int, row: int, column: int, r: int, c: int)
    requires 0 < dimension
  {
    (r == row || c == column || SameBlock(dimension, row, column, r, c)) && (r, c) != (row, column)
  }

  /** The three passes of `update_cell(row, column)` visit exactly the peers of
      the cell: the rest of its row, the rest of its column, and the cells of
      its block outside both. */
  lemma {:induction false} PassesArePeers(dimension: int, row: int, column: int, r: int, c: int)
    requires 0 < dimension && 0 <= row < dimension * dimension && 0 <= column < dimension * dimension
    requires 0 <= r && 0 <= c
    ensures var top, left := BlockStart(dimension, row), BlockStart(dimension, column);
      (r == row && c != column) || (c == column && r != row) ||
      (top <= r < top + dimension && left <= c < left + dimension && r != row && c != column)
      <==> Peer(dimension, row, column, r, c)
  {
    InBlock(dimension, row, r);
    InBlock(dimension, column, c);
  }
}
