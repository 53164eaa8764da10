/** The three passes of `update_cell(row, column)` as lists of visits, in the
    order the source's loops make them, and what running them does to the
    solver's state. */
module Passes {
  import opened Wrappers
  import opened Fields
  import opened Geometry
  import opened Board

  /** The row pass over columns 0 to n - 1: every cell (row, index) but the
      target, putting `(row, index)` when that resolves it. */
  function RowSteps(row: int, column: int, n: int): Trail
    decreases n
  {
    if n <= 0 then Start
    else if n - 1 == column then RowSteps(row, column, n - 1)
    else Then(RowSteps(row, column, n - 1), Step(row, n - 1, (row, n - 1)))
  }

  /** The column pass over rows 0 to n - 1: every cell (index, column) but the
      target, putting `(row, index)` (as the source writes it, not
      `(index, column)`) when that resolves it. */
  function ColumnSteps(row: int, column: int, n: int): Trail
    decreases n
  {
    if n <= 0 then Start
    else if n - 1 == row then ColumnSteps(row, column, n - 1)
    else Then(ColumnSteps(row, column, n - 1), Step(n - 1, column, (row, n - 1)))
  }

  /** Block row `rowIndex` of the block pass, over the columns from `left` up
      to, not including, `columnIndex`: every cell outside the target's row and
      column, putting `(row, stale)` when that resolves it, `stale` being the
      value the column loop left in its variable `index`. */
  function BlockRowSteps(row: int, column: int, stale: int, rowIndex: int, left: int, columnIndex: int): Trail
    decreases columnIndex - left
  {
    if columnIndex <= left then Start
    else if rowIndex == row || columnIndex - 1 == column then BlockRowSteps(row, column, stale, rowIndex, left, columnIndex - 1)
    else Then(BlockRowSteps(row, column, stale, rowIndex, left, columnIndex - 1), Step(rowIndex, columnIndex - 1, (row, stale)))
  }

  /** The block pass over the block rows from `top` up to, not including,
      `rowIndex`, each over the `size` columns from `left`. */
  function BlockSteps(row: int, column: int, stale: int, top: int, left: int, size: int, rowIndex: int): Trail
    decreases rowIndex - top
  {
    if rowIndex <= top then Start
    else Append(BlockSteps(row, column, stale, top, left, size, rowIndex - 1), BlockRowSteps(row, column, stale, rowIndex - 1, left, left + size))
  }

  /** All the visits of `update_cell(row, column)` on a grid of side
      `dimension * dimension`: the row pass, the column pass, then the block
      pass over the block of (row, column), whose puts use the index
      `depth - 1` the column loop left behind. */
  function UpdateSteps(dimension: int, row: int, column: int): Trail
    requires 0 < dimension && 0 <= row < dimension * dimension && 0 <= column < dimension * dimension
  {
    var depth := dimension * dimension;
    var top, left := BlockStart(dimension, row), BlockStart(dimension, column);
    Append(Append(RowSteps(row, column, depth), ColumnSteps(row, column, depth)),
           BlockSteps(row, column, depth - 1, top, left, dimension, top + dimension))
  }

  /** The state `update_cell(row, column)` leaves: the visits run with the value
      the target cell held on entry. */
  function Updated(st: State, dimension: int, row: int, column: int): State
    requires 0 < dimension && IsGrid(st.grid, dimension * dimension)
    requires 0 <= row < dimension * dimension && 0 <= column < dimension * dimension
  {
    Run(st, UpdateSteps(dimension, row, column), st.grid[row][column].value)
  }

  /** What `update_cell(row, column)` puts on the queue of grid `s`. */
  function Puts(s: Grid, dimension: int, row: int, column: int): seq<(int, int)>
    requires 0 < dimension && IsGrid(s, dimension * dimension)
    requires 0 <= row < dimension * dimension && 0 <= column < dimension * dimension
  {
    Updated(State(s, []), dimension, row, column).queue
  }

  /** A finished block row carries the block pass on by one row. */
  lemma BlockRowDone(st: State, mid: State, last: State, x: Option<int>,
                     row: int, column: int, stale: int, top: int, left: int, size: int, rowIndex: int)
    requires top <= rowIndex
    requires mid == Run(st, BlockSteps(row, column, stale, top, left, size, rowIndex), x)
    requires last == Run(mid, BlockRowSteps(row, column, stale, rowIndex, left, left + size), x)
    ensures last == Run(st, BlockSteps(row, column, stale, top, left, size, rowIndex + 1), x)
  {
    Concat(st, BlockSteps(row, column, stale, top, left, size, rowIndex),
           BlockRowSteps(row, column, stale, rowIndex, left, left + size), x);
  }

  /** The row, column and block passes, run one after the other on a grid of
      side `depth`, make up `update_cell(row, column)`. */
  lemma PassesDone(st: State, afterRow: State, afterColumn: State, last: State, x: Option<int>,
                   dimension: int, row: int, column: int, depth: int)
    requires 0 < dimension && depth == dimension * dimension && 0 <= row < depth && 0 <= column < depth
    requires afterRow == Run(st, RowSteps(row, column, depth), x)
    requires afterColumn == Run(afterRow, ColumnSteps(row, column, depth), x)
    requires last == Run(afterColumn, BlockSteps(row, column, depth - 1, BlockStart(dimension, row), BlockStart(dimension, column),
                                                 dimension, BlockStart(dimension, row) + dimension), x)
    ensures last == Run(st, UpdateSteps(dimension, row, column), x)
  {
    var rows, columns := RowSteps(row, column, depth), ColumnSteps(row, column, depth);
    Concat(st, rows, columns, x);
    Concat(st, Append(rows, columns), BlockSteps(row, column, depth - 1, BlockStart(dimension, row), BlockStart(dimension, column),
                                          dimension, BlockStart(dimension, row) + dimension), x);
  }

  /** The row pass visits each other cell of the row once, and puts only
      coordinates (row, j) of cells it has visited. */
  lemma {:induction false} RowStepsVisit(row: int, column: int, n: int, r: int, c: int, p: (int, int))
    ensures Visits(RowSteps(row, column, n), r, c) <==> r == row && 0 <= c < n && c != column
    ensures MayPut(RowSteps(row, column, n), p) ==> p.0 == row && 0 <= p.1 < n
    ensures Unrepeated(RowSteps(row, column, n))
    decreases n
  {
    if n > 0 {
      RowStepsVisit(row, column, n - 1, r, c, p);
      if n - 1 != column {
        RowStepsVisit(row, column, n - 1, row, n - 1, p);
      }
    }
  }

  /** The column pass visits each other cell of the column once, and puts only
      coordinates (row, j), with j the row of a cell it has visited. */
  lemma {:induction false} ColumnStepsVisit(row: int, column: int, n: int, r: int, c: int, p: (int, int))
    ensures Visits(ColumnSteps(row, column, n), r, c) <==> c == column && 0 <= r < n && r != row
    ensures MayPut(ColumnSteps(row, column, n), p) ==> p.0 == row && 0 <= p.1 < n
    ensures Unrepeated(ColumnSteps(row, column, n))
    decreases n
  {
    if n > 0 {
      ColumnStepsVisit(row, column, n - 1, r, c, p);
      if n - 1 != row {
        ColumnStepsVisit(row, column, n - 1, n - 1, column, p);
      }
    }
  }

  /** A block row visits each of its cells outside the target's row and column
      once, and puts nothing but `(row, stale)`. */
  lemma {:induction false} BlockRowStepsVisit(row: int, column: int, stale: int, rowIndex: int, left: int, columnIndex: int,
                                             r: int, c: int, p: (int, int))
    ensures Visits(BlockRowSteps(row, column, stale, rowIndex, left, columnIndex), r, c) <==>
      r == rowIndex && r != row && left <= c < columnIndex && c != column
    ensures MayPut(BlockRowSteps(row, column, stale, rowIndex, left, columnIndex), p) ==> p == (row, stale)
    ensures Unrepeated(BlockRowSteps(row, column, stale, rowIndex, left, columnIndex))
    decreases columnIndex - left
  {
    if columnIndex > left {
      BlockRowStepsVisit(row, column, stale, rowIndex, left, columnIndex - 1, r, c, p);
      if rowIndex != row && columnIndex - 1 != column {
        BlockRowStepsVisit(row, column, stale, rowIndex, left, columnIndex - 1, rowIndex, columnIndex - 1, p);
      }
    }
  }

  /** The block pass visits each cell of its block rows outside the target's row
      and column once, and puts nothing but `(row, stale)`. */
  lemma {:induction false} BlockStepsVisit(row: int, column: int, stale: int, top: int, left: int, size: int, rowIndex: int,
                                          r: int, c: int, p: (int, int))
    ensures Visits(BlockSteps(row, column, stale, top, left, size, rowIndex), r, c) <==>
      top <= r < rowIndex && r != row && left <= c < left + size && c != column
    ensures MayPut(BlockSteps(row, column, stale, top, left, size, rowIndex), p) ==> p == (row, stale)
    ensures Unrepeated(BlockSteps(row, column, stale, top, left, size, rowIndex))
    decreases rowIndex - top
  {
    if rowIndex > top {
      var done := BlockSteps(row, column, stale, top, left, size, rowIndex - 1);
      var last := BlockRowSteps(row, column, stale, rowIndex - 1, left, left + size);
      BlockStepsVisit(row, column, stale, top, left, size, rowIndex - 1, r, c, p);
      BlockRowStepsVisit(row, column, stale, rowIndex - 1, left, left + size, r, c, p);
      ConcatVisits(done, last, r, c, p);
      forall i, j | Visits(last, i, j) ensures !Visits(done, i, j) {
        BlockRowStepsVisit(row, column, stale, rowIndex - 1, left, left + size, i, j, p);
        BlockStepsVisit(row, column, stale, top, left, size, rowIndex - 1, i, j, p);
      }
      ConcatUnrepeated(done, last);
    }
  }

  /** The three passes, with the line passes over indices 0 to n - 1 and the
      block pass over the `size` by `size` block whose top left cell is
      (top, left): the cells they visit, and what they may put. */
  lemma {:induction false} PassStepsVisit(row: int, column: int, n: int, stale: int, top: int, left: int, size: int,
                                         r: int, c: int, p: (int, int))
    ensures Visits(Append(Append(RowSteps(row, column, n), ColumnSteps(row, column, n)),
                          BlockSteps(row, column, stale, top, left, size, top + size)), r, c) <==>
      (r == row && 0 <= c < n && c != column) || (c == column && 0 <= r < n && r != row) ||
      (top <= r < top + size && left <= c < left + size && r != row && c != column)
    ensures MayPut(Append(Append(RowSteps(row, column, n), ColumnSteps(row, column, n)),
                          BlockSteps(row, column, stale, top, left, size, top + size)), p) ==>
      p.0 == row && (0 <= p.1 < n || p.1 == stale)
  {
    var rows, columns := RowSteps(row, column, n), ColumnSteps(row, column, n);
    var block := BlockSteps(row, column, stale, top, left, size, top + size);
    ConcatVisits(rows, columns, r, c, p);
    ConcatVisits(Append(rows, columns), block, r, c, p);
    RowStepsVisit(row, column, n, r, c, p);
    ColumnStepsVisit(row, column, n, r, c, p);
    BlockStepsVisit(row, column, stale, top, left, size, top + size, r, c, p);
  }

  /** The three passes visit no cell twice. */
  lemma {:induction false} PassStepsUnrepeated(row: int, column: int, n: int, stale: int, top: int, left: int, size: int)
    ensures Unrepeated(Append(Append(RowSteps(row, column, n), ColumnSteps(row, column, n)),
                              BlockSteps(row, column, stale, top, left, size, top + size)))
  {
    var rows, columns := RowSteps(row, column, n), ColumnSteps(row, column, n);
    var block := BlockSteps(row, column, stale, top, left, size, top + size);
    RowStepsVisit(row, column, n, 0, 0, (0, 0));
    ColumnStepsVisit(row, column, n, 0, 0, (0, 0));
    BlockStepsVisit(row, column, stale, top, left, size, top + size, 0, 0, (0, 0));
    forall r, c ensures Visits(columns, r, c) ==> !Visits(rows, r, c) {
      RowStepsVisit(row, column, n, r, c, (0, 0));
      ColumnStepsVisit(row, column, n, r, c, (0, 0));
    }
    ConcatUnrepeated(rows, columns);
    forall r, c ensures Visits(block, r, c) ==> !Visits(Append(rows, columns), r, c) {
      ConcatVisits(rows, columns, r, c, (0, 0));
      RowStepsVisit(row, column, n, r, c, (0, 0));
      ColumnStepsVisit(row, column, n, r, c, (0, 0));
      BlockStepsVisit(row, column, stale, top, left, size, top + size, r, c, (0, 0));
    }
    ConcatUnrepeated(Append(rows, columns), block);
  }

  /** The row, column and block passes, run one after the other from a valid
      state with the target's value, leave the state `Updated` describes,
      with every property proved of it. */
  lemma PassesUpdate(st: State, afterRow: State, afterColumn: State, last: State, dimension: int, row: int, column: int)
    requires 0 < dimension && ValidState(dimension * dimension, st.grid, st.queue)
    requires 0 <= row < dimension * dimension && 0 <= column < dimension * dimension
    requires afterRow == Run(st, RowSteps(row, column, dimension * dimension), st.grid[row][column].value)
    requires afterColumn == Run(afterRow, ColumnSteps(row, column, dimension * dimension), st.grid[row][column].value)
    requires last == Run(afterColumn, BlockSteps(row, column, dimension * dimension - 1, BlockStart(dimension, row), BlockStart(dimension, column),
                                                 dimension, BlockStart(dimension, row) + dimension), st.grid[row][column].value)
    ensures last == Updated(st, dimension, row, column)
    ensures ValidState(dimension * dimension, last.grid, last.queue)
    ensures last.grid == Propagated(st.grid, dimension, row, column)
    ensures last.queue == st.queue + Puts(st.grid, dimension, row, column)
    ensures |UnresolvedOf(last.grid)| + |last.queue| == |UnresolvedOf(st.grid)| + |st.queue|
  {
    PassesDone(st, afterRow, afterColumn, last, st.grid[row][column].value, dimension, row, column, dimension * dimension);
    UpdatedPropagates(st, dimension, row, column);
    UpdatedKeepsValid(st, dimension, row, column);
  }

  /** `update_cell(row, column)` visits exactly the peers of (row, column),
      and every coordinate it may put is in the target's row. */
  lemma {:induction false} UpdateStepsVisit(dimension: int, row: int, column: int, r: int, c: int, p: (int, int))
    requires 0 < dimension && 0 <= row < dimension * dimension && 0 <= column < dimension * dimension
    requires 0 <= r < dimension * dimension && 0 <= c < dimension * dimension
    ensures Visits(UpdateSteps(dimension, row, column), r, c) <==> Peer(dimension, row, column, r, c)
    ensures MayPut(UpdateSteps(dimension, row, column), p) ==> p.0 == row && 0 <= p.1 < dimension * dimension
  {
    var depth := dimension * dimension;
    var top, left := BlockStart(dimension, row), BlockStart(dimension, column);
    var steps := Append(Append(RowSteps(row, column, depth), ColumnSteps(row, column, depth)),
                        BlockSteps(row, column, depth - 1, top, left, dimension, top + dimension));
    assert UpdateSteps(dimension, row, column) == steps;
    PassStepsVisit(row, column, depth, depth - 1, top, left, dimension, r, c, p);
    assert Visits(steps, r, c) <==>
      (r == row && c != column) || (c == column && r != row) ||
      (top <= r < top + dimension && left <= c < left + dimension && r != row && c != column);
    PassesArePeers(dimension, row, column, r, c);
  }

  /** `update_cell(row, column)` visits no cell twice. */
  lemma UpdateStepsUnrepeated(dimension: int, row: int, column: int)
    requires 0 < dimension && 0 <= row < dimension * dimension && 0 <= column < dimension * dimension
    ensures Unrepeated(UpdateSteps(dimension, row, column))
  {
    var depth := dimension * dimension;
    PassStepsUnrepeated(row, column, depth, depth - 1, BlockStart(dimension, row), BlockStart(dimension, column), dimension);
  }

  /** `update_cell(row, column)` leaves exactly the propagated grid: the value
      of the target removed from every unresolved peer. */
  lemma {:induction false} UpdatedPropagates(st: State, dimension: int, row: int, column: int)
    requires 0 < dimension && IsGrid(st.grid, dimension * dimension)
    requires 0 <= row < dimension * dimension && 0 <= column < dimension * dimension
    ensures Updated(st, dimension, row, column).grid == Propagated(st.grid, dimension, row, column)
  {
    var steps, x := UpdateSteps(dimension, row, column), st.grid[row][column].value;
    var t, t' := Updated(st, dimension, row, column).grid, Propagated(st.grid, dimension, row, column);
    UpdateStepsUnrepeated(dimension, row, column);
    RunAt(st, steps, x, 0, 0);
    forall r | 0 <= r < |t| ensures t[r] == t'[r] {
      forall c | 0 <= c < |t| ensures t[r][c] == t'[r][c] {
        RunAt(st, steps, x, r, c);
        UpdateStepsVisit(dimension, row, column, r, c, (0, 0));
        PropagatedAt(st.grid, dimension, row, column, r, c);
      }
    }
  }

  /** `update_cell(row, column)` keeps the solver's state valid, only appends
      `Puts` to the queue, and puts one coordinate per cell it resolves. */
  lemma {:induction false} UpdatedKeepsValid(st: State, dimension: int, row: int, column: int)
    requires 0 < dimension && ValidState(dimension * dimension, st.grid, st.queue)
    requires 0 <= row < dimension * dimension && 0 <= column < dimension * dimension
    ensures ValidState(dimension * dimension, Updated(st, dimension, row, column).grid, Updated(st, dimension, row, column).queue)
    ensures Updated(st, dimension, row, column).queue == st.queue + Puts(st.grid, dimension, row, column)
    ensures |UnresolvedOf(Updated(st, dimension, row, column).grid)| + |Updated(st, dimension, row, column).queue| ==
            |UnresolvedOf(st.grid)| + |st.queue|
  {
    var steps, x := UpdateSteps(dimension, row, column), st.grid[row][column].value;
    RunKeeps(st, steps, x);
    RunQueue(st, steps, x);
    var q := Updated(st, dimension, row, column).queue;
    forall i | 0 <= i < |q| ensures 0 <= q[i].0 < dimension * dimension && 0 <= q[i].1 < dimension * dimension {
      if i >= |st.queue| {
        assert q[i] in Puts(st.grid, dimension, row, column);
        UpdateStepsVisit(dimension, row, column, 0, 0, q[i]);
      }
    }
  }

  /** Every coordinate `update_cell(row, column)` puts names the target's own
      row: the column and block passes put `(row, index)` whatever cell they
      resolved. */
  lemma {:induction false} PutsOnTargetRow(s: Grid, dimension: int, row: int, column: int)
    requires 0 < dimension && IsGrid(s, dimension * dimension)
    requires 0 <= row < dimension * dimension && 0 <= column < dimension * dimension
    ensures forall p :: p in Puts(s, dimension, row, column) ==> p.0 == row && 0 <= p.1 < dimension * dimension
  {
    RunQueue(State(s, []), UpdateSteps(dimension, row, column), s[row][column].value);
    forall p | p in Puts(s, dimension, row, column) ensures p.0 == row && 0 <= p.1 < dimension * dimension {
      UpdateStepsVisit(dimension, row, column, 0, 0, p);
    }
  }

  /** `update_cell(row, column)` puts exactly as many coordinates as it
      resolves cells. */
  lemma {:induction false} PutsCountResolved(s: Grid, dimension: int, row: int, column: int)
    requires 0 < dimension && IsGrid(s, dimension * dimension) && AllWellFormed(s)
    requires 0 <= row < dimension * dimension && 0 <= column < dimension * dimension
    ensures |Puts(s, dimension, row, column)| + |UnresolvedOf(Propagated(s, dimension, row, column))| == |UnresolvedOf(s)|
  {
    UpdatedKeepsValid(State(s, []), dimension, row, column);
    UpdatedPropagates(State(s, []), dimension, row, column);
  }

  /** What the row pass of `update_cell(row, column)` puts, judged on the grid
      `s` it starts from, over columns 0 to n - 1: `(row, j)` for every other
      cell (row, j) that `remove_possible(x)` resolves, by increasing j. */
  function RowPuts(s: Grid, row: int, column: int, x: Option<int>, n: int): seq<(int, int)>
    decreases n
  {
    if n <= 0 then []
    else RowPuts(s, row, column, x, n - 1) + if n - 1 == column then [] else Put(s, row, n - 1, x, (row, n - 1))
  }

  /** What the column pass puts, over rows 0 to n - 1: `(row, i)`, in the
      target's row rather than at the resolved cell, for every other cell
      (i, column) that `remove_possible(x)` resolves, by increasing i. */
  function ColumnPuts(s: Grid, row: int, column: int, x: Option<int>, n: int): seq<(int, int)>
    decreases n
  {
    if n <= 0 then []
    else ColumnPuts(s, row, column, x, n - 1) + if n - 1 == row then [] else Put(s, n - 1, column, x, (row, n - 1))
  }

  /** The cells of the block of (row, column), outside its row and its
      column, that `remove_possible(x)` resolves in `s`. */
  function BlockResolved(s: Grid, dimension: int, row: int, column: int, x: Option<int>): set<(int, int)>
    requires 0 < dimension && 0 <= row < dimension * dimension && 0 <= column < dimension * dimension
  {
    var top, left := BlockStart(dimension, row), BlockStart(dimension, column);
    set r, c | 0 <= r < |s| && 0 <= c < |s[r]| && top <= r < top + dimension && left <= c < left + dimension &&
               r != row && c != column && Collapses(s, r, c, x) :: (r, c)
  }

  /** What the block pass puts: one `(row, depth - 1)`, the stale index the
      column loop left, for each block cell it resolves. */
  function BlockPuts(s: Grid, dimension: int, row: int, column: int, x: Option<int>): seq<(int, int)>
    requires 0 < dimension && 0 <= row < dimension * dimension && 0 <= column < dimension * dimension
  {
    seq(|BlockResolved(s, dimension, row, column, x)|, _ => (row, dimension * dimension - 1))
  }

  /** The row pass puts `(row, j)` exactly for the other cells (row, j) it
      resolves, each once, by increasing j. */
  lemma {:induction false} RowPutsMember(s: Grid, row: int, column: int, x: Option<int>, n: int)
    ensures forall p :: p in RowPuts(s, row, column, x, n) <==>
      p.0 == row && 0 <= p.1 < n && p.1 != column && Collapses(s, row, p.1, x)
    ensures forall i, j :: 0 <= i < j < |RowPuts(s, row, column, x, n)| ==>
      RowPuts(s, row, column, x, n)[i].1 < RowPuts(s, row, column, x, n)[j].1
    decreases n
  {
    if n > 0 {
      RowPutsMember(s, row, column, x, n - 1);
      var before := RowPuts(s, row, column, x, n - 1);
      forall i | 0 <= i < |before| ensures before[i].1 < n - 1 {
        assert before[i] in before;
      }
    }
  }

  /** The column pass puts `(row, i)` exactly for the other cells (i, column)
      it resolves, each once, by increasing i: the resolved cell's row index
      lands in the column position of a coordinate in the target's row. */
  lemma {:induction false} ColumnPutsMember(s: Grid, row: int, column: int, x: Option<int>, n: int)
    ensures forall p :: p in ColumnPuts(s, row, column, x, n) <==>
      p.0 == row && 0 <= p.1 < n && p.1 != row && Collapses(s, p.1, column, x)
    ensures forall i, j :: 0 <= i < j < |ColumnPuts(s, row, column, x, n)| ==>
      ColumnPuts(s, row, column, x, n)[i].1 < ColumnPuts(s, row, column, x, n)[j].1
    decreases n
  {
    if n > 0 {
      ColumnPutsMember(s, row, column, x, n - 1);
      var before := ColumnPuts(s, row, column, x, n - 1);
      forall i | 0 <= i < |before| ensures before[i].1 < n - 1 {
        assert before[i] in before;
      }
    }
  }

  /** The visits of the row pass put what `RowPuts` lists. */
  lemma {:induction false} RowGathered(s: Grid, row: int, column: int, x: Option<int>, n: int)
    ensures Gathered(s, RowSteps(row, column, n), x) == RowPuts(s, row, column, x, n)
    decreases n
  {
    if n > 0 {
      RowGathered(s, row, column, x, n - 1);
    }
  }

  /** The visits of the column pass put what `ColumnPuts` lists. */
  lemma {:induction false} ColumnGathered(s: Grid, row: int, column: int, x: Option<int>, n: int)
    ensures Gathered(s, ColumnSteps(row, column, n), x) == ColumnPuts(s, row, column, x, n)
    decreases n
  {
    if n > 0 {
      ColumnGathered(s, row, column, x, n - 1);
    }
  }

  /** The block pass resolves exactly the cells `BlockResolved` names. */
  lemma BlockResolvable(s: Grid, dimension: int, row: int, column: int, x: Option<int>)
    requires 0 < dimension && 0 <= row < dimension * dimension && 0 <= column < dimension * dimension
    ensures var top, left := BlockStart(dimension, row), BlockStart(dimension, column);
      Resolvable(s, BlockSteps(row, column, dimension * dimension - 1, top, left, dimension, top + dimension), x) ==
      BlockResolved(s, dimension, row, column, x)
  {
    var stale, top, left := dimension * dimension - 1, BlockStart(dimension, row), BlockStart(dimension, column);
    var block := BlockSteps(row, column, stale, top, left, dimension, top + dimension);
    forall r, c ensures (r, c) in Resolvable(s, block, x) <==> (r, c) in BlockResolved(s, dimension, row, column, x) {
      BlockStepsVisit(row, column, stale, top, left, dimension, top + dimension, r, c, (0, 0));
    }
  }

  /** The visits of the block pass put what `BlockPuts` lists. */
  lemma BlockGathered(s: Grid, dimension: int, row: int, column: int, x: Option<int>)
    requires 0 < dimension && 0 <= row < dimension * dimension && 0 <= column < dimension * dimension
    ensures var top, left := BlockStart(dimension, row), BlockStart(dimension, column);
      Gathered(s, BlockSteps(row, column, dimension * dimension - 1, top, left, dimension, top + dimension), x) ==
      BlockPuts(s, dimension, row, column, x)
  {
    var stale, top, left := dimension * dimension - 1, BlockStart(dimension, row), BlockStart(dimension, column);
    var block := BlockSteps(row, column, stale, top, left, dimension, top + dimension);
    BlockStepsVisit(row, column, stale, top, left, dimension, top + dimension, 0, 0, (0, 0));
    GatheredCount(s, block, x);
    BlockResolvable(s, dimension, row, column, x);
    var g := Gathered(s, block, x);
    forall i | 0 <= i < |g| ensures g[i] == (row, stale) {
      assert g[i] in g;
      BlockStepsVisit(row, column, stale, top, left, dimension, top + dimension, 0, 0, g[i]);
    }
  }

  /** The visits of `update_cell(row, column)` are those of its three passes. */
  lemma UpdateStepsParts(dimension: int, row: int, column: int)
    requires 0 < dimension && 0 <= row < dimension * dimension && 0 <= column < dimension * dimension
    ensures var depth, top, left := dimension * dimension, BlockStart(dimension, row), BlockStart(dimension, column);
      UpdateSteps(dimension, row, column) ==
      Append(Append(RowSteps(row, column, depth), ColumnSteps(row, column, depth)),
             BlockSteps(row, column, depth - 1, top, left, dimension, top + dimension))
  {
  }

  /** What `update_cell(row, column)` puts is what its visits gather on the
      grid it starts from, since no cell is visited twice. */
  lemma PutsGathered(s: Grid, dimension: int, row: int, column: int)
    requires 0 < dimension && IsGrid(s, dimension * dimension)
    requires 0 <= row < dimension * dimension && 0 <= column < dimension * dimension
    ensures Puts(s, dimension, row, column) == Gathered(s, UpdateSteps(dimension, row, column), s[row][column].value)
  {
    UpdateStepsUnrepeated(dimension, row, column);
    RunGathers(State(s, []), UpdateSteps(dimension, row, column), s[row][column].value);
    assert [] + Gathered(s, UpdateSteps(dimension, row, column), s[row][column].value) ==
           Gathered(s, UpdateSteps(dimension, row, column), s[row][column].value);
  }

  /** The visits of `update_cell(row, column)` gather what the visits of its
      three passes gather, in pass order. */
  lemma GatheredParts(s: Grid, dimension: int, row: int, column: int, x: Option<int>)
    requires 0 < dimension && 0 <= row < dimension * dimension && 0 <= column < dimension * dimension
    ensures var depth, top, left := dimension * dimension, BlockStart(dimension, row), BlockStart(dimension, column);
      Gathered(s, UpdateSteps(dimension, row, column), x) ==
      Gathered(s, RowSteps(row, column, depth), x) + Gathered(s, ColumnSteps(row, column, depth), x) +
      Gathered(s, BlockSteps(row, column, depth - 1, top, left, dimension, top + dimension), x)
  {
    var depth := dimension * dimension;
    var top, left := BlockStart(dimension, row), BlockStart(dimension, column);
    var rows, columns := RowSteps(row, column, depth), ColumnSteps(row, column, depth);
    var block := BlockSteps(row, column, depth - 1, top, left, dimension, top + dimension);
    UpdateStepsParts(dimension, row, column);
    GatheredConcat(s, Append(rows, columns), block, x);
    GatheredConcat(s, rows, columns, x);
  }

  /** The visits of `update_cell(row, column)` gather, in this order, what
      the row pass, the column pass and the block pass each put. */
  lemma GatheredSplit(s: Grid, dimension: int, row: int, column: int, x: Option<int>)
    requires 0 < dimension && 0 <= row < dimension * dimension && 0 <= column < dimension * dimension
    ensures var depth := dimension * dimension;
      Gathered(s, UpdateSteps(dimension, row, column), x) ==
      RowPuts(s, row, column, x, depth) + ColumnPuts(s, row, column, x, depth) + BlockPuts(s, dimension, row, column, x)
  {
    var depth := dimension * dimension;
    GatheredParts(s, dimension, row, column, x);
    RowGathered(s, row, column, x, depth);
    ColumnGathered(s, row, column, x, depth);
    BlockGathered(s, dimension, row, column, x);
  }

  /** `update_cell(row, column)` puts, in this order, what the row pass, the
      column pass and the block pass each put, all judged on the grid it
      starts from. */
  lemma PutsSplit(s: Grid, dimension: int, row: int, column: int)
    requires 0 < dimension && IsGrid(s, dimension * dimension)
    requires 0 <= row < dimension * dimension && 0 <= column < dimension * dimension
    ensures var x, depth := s[row][column].value, dimension * dimension;
      Puts(s, dimension, row, column) ==
      RowPuts(s, row, column, x, depth) + ColumnPuts(s, row, column, x, depth) + BlockPuts(s, dimension, row, column, x)
  {
    PutsGathered(s, dimension, row, column);
    GatheredSplit(s, dimension, row, column, s[row][column].value);
  }
}
