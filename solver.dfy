/** The constraint-propagation solver (the source's class `Sudoku`): a
    `depth` by `depth` grid of cells, `depth = dimension * dimension`, and a FIFO
    work queue of coordinates whose values still have to be propagated. */
module Solver {
  import opened Wrappers
  import opened Fields
  import opened Geometry
  import opened Board
  import opened Passes

  /** The source's `GameError` exception. */
  datatype GameError = GameError(message: string)

  /** The value of the last of the first `n` clues that names cell (r, c), if
      any: a later clue for the same cell overwrites an earlier one. */
  function ClueAt(clues: seq<(int, int, int)>, n: nat, r: int, c: int): Option<int>
    requires n <= |clues|
  {
    if n == 0 then None
    else if clues[n - 1].0 == r && clues[n - 1].1 == c then Some(clues[n - 1].2)
    else ClueAt(clues, n - 1, r, c)
  }

  /** Among the first `n` clues, a cell gets a clue value exactly when some
      clue names it, and then it is the value of the last such clue. */
  lemma {:induction false} ClueAtIsLastClue(clues: seq<(int, int, int)>, n: nat, r: int, c: int)
    requires n <= |clues|
    ensures ClueAt(clues, n, r, c).None? <==> forall i :: 0 <= i < n ==> (clues[i].0, clues[i].1) != (r, c)
    ensures forall i :: 0 <= i < n && (clues[i].0, clues[i].1) == (r, c) &&
                        (forall j :: i < j < n ==> (clues[j].0, clues[j].1) != (r, c)) ==>
                        ClueAt(clues, n, r, c) == Some(clues[i].2)
  {
    if n > 0 {
      ClueAtIsLastClue(clues, n - 1, r, c);
    }
  }

  /** The state of cell (r, c) once the first `n` clues have been entered by
      `create_array`. */
  function Seeded(clues: seq<(int, int, int)>, n: nat, r: int, c: int): Cell
    requires n <= |clues|
  {
    match ClueAt(clues, n, r, c)
    case Some(v) => Assigned(v)
    case None => Blank
  }

  /** Setting the value of the cell named by clue `k` turns the grid seeded by
      the first `k` clues into the grid seeded by the first `k + 1`. */
  lemma SeededNext(clues: seq<(int, int, int)>, k: nat, s: Grid, depth: int)
    requires k < |clues| && IsGrid(s, depth) && 0 <= clues[k].0 < depth && 0 <= clues[k].1 < depth
    requires forall r, c :: 0 <= r < depth && 0 <= c < depth ==> s[r][c] == Seeded(clues, k, r, c)
    ensures var t := s[clues[k].0 := s[clues[k].0][clues[k].1 := Assigned(clues[k].2)]];
      IsGrid(t, depth) && forall r, c :: 0 <= r < depth && 0 <= c < depth ==> t[r][c] == Seeded(clues, k + 1, r, c)
  {
  }

  /** The guesses for the first `i` candidates `p` of cell (r, c), in list order. */
  function CellGuesses(r: int, c: int, p: seq<int>, i: int): seq<(int, int, int)>
    requires 0 <= i <= |p|
  {
    if i == 0 then [] else CellGuesses(r, c, p, i - 1) + [(r, c, p[i - 1])]
  }

  /** The guesses for the first `n` cells of row `r` of `s`: every candidate of
      each cell with exactly `minimum` of them. */
  function RowGuesses(s: Grid, r: int, n: int, minimum: int): seq<(int, int, int)>
    requires 0 <= r < |s| && 0 <= n <= |s[r]|
  {
    if n == 0 then []
    else
      var p := s[r][n - 1].possible;
      RowGuesses(s, r, n - 1, minimum) + if |p| == minimum then CellGuesses(r, n - 1, p, |p|) else []
  }

  /** The guesses for the first `n` rows of `s`, row-major. */
  function GridGuesses(s: Grid, n: int, minimum: int): seq<(int, int, int)>
    requires 0 <= n <= |s|
  {
    if n == 0 then [] else GridGuesses(s, n - 1, minimum) + RowGuesses(s, n - 1, |s[n - 1]|, minimum)
  }

  /** The first `i` guesses of a cell are its first `i` candidates. */
  lemma {:induction false} CellGuessesMember(r: int, c: int, p: seq<int>, i: int, gr: int, gc: int, v: int)
    requires 0 <= i <= |p|
    ensures (gr, gc, v) in CellGuesses(r, c, p, i) <==> gr == r && gc == c && v in p[..i]
  {
    if i > 0 {
      CellGuessesMember(r, c, p, i - 1, gr, gc, v);
      assert p[..i] == p[..i - 1] + [p[i - 1]];
    }
  }

  /** The guesses for row `r` are the candidates of its cells with `minimum` of them. */
  lemma {:induction false} RowGuessesMember(s: Grid, r: int, n: int, minimum: int, gr: int, gc: int, v: int)
    requires 0 <= r < |s| && 0 <= n <= |s[r]|
    ensures (gr, gc, v) in RowGuesses(s, r, n, minimum) <==>
      gr == r && 0 <= gc < n && |s[r][gc].possible| == minimum && v in s[r][gc].possible
  {
    if n > 0 {
      var p := s[r][n - 1].possible;
      RowGuessesMember(s, r, n - 1, minimum, gr, gc, v);
      CellGuessesMember(r, n - 1, p, |p|, gr, gc, v);
      assert p[..|p|] == p;
    }
  }

  /** The guesses of `enqueue_candidates` are exactly the triples (r, c, v) where
      cell (r, c) has exactly `minimum` candidates and `v` is one of them. */
  lemma {:induction false} GridGuessesMember(s: Grid, n: int, minimum: int, r: int, c: int, v: int)
    requires 0 <= n <= |s|
    ensures (r, c, v) in GridGuesses(s, n, minimum) <==>
      0 <= r < n && 0 <= c < |s[r]| && |s[r][c].possible| == minimum && v in s[r][c].possible
  {
    if n > 0 {
      GridGuessesMember(s, n - 1, minimum, r, c, v);
      RowGuessesMember(s, n - 1, |s[n - 1]|, minimum, r, c, v);
    }
  }

  /** Appending one element after `a + b` appends it to `b`. */
  lemma AppendOne<T>(a: seq<T>, b: seq<T>, x: T)
    ensures a + b + [x] == a + (b + [x])
  {
  }

  /** `minimum` is what the first scan of `enqueue_candidates` finds in `s`: the
      least candidate count above one, or 9 when no cell has between two and
      eight candidates. */
  predicate Fewest(s: Grid, minimum: int)
    requires IsGrid(s, |s|)
  {
    1 < minimum <= 9 &&
    (forall r, c :: 0 <= r < |s| && 0 <= c < |s| && 1 < |s[r][c].possible| ==> minimum <= |s[r][c].possible|) &&
    (minimum < 9 ==> exists r, c :: 0 <= r < |s| && 0 <= c < |s| && |s[r][c].possible| == minimum)
  }

  /** `result` is what `build_result` returns for `s`: `GameError` when some cell
      has no value, otherwise the rows of values. */
  predicate Extracted(s: Grid, result: Result<seq<seq<int>>, GameError>)
    requires IsGrid(s, |s|)
  {
    if exists r, c :: 0 <= r < |s| && 0 <= c < |s| && s[r][c].value.None? then
      result == Failure(GameError("Not solved"))
    else
      result.Success? && |result.value| == |s| &&
      forall r :: 0 <= r < |s| ==>
        |result.value[r]| == |s| && forall c :: 0 <= c < |s| ==> s[r][c].value == Some(result.value[r][c])
  }

  /** At most one count satisfies `Fewest`. */
  lemma FewestIsUnique(s: Grid, m: int, m': int)
    requires IsGrid(s, |s|) && Fewest(s, m) && Fewest(s, m')
    ensures m == m'
  {
  }

  /** The state `simple_solve` leaves: while the queue is not empty, the
      coordinate at its front is taken off and `update_cell` runs on it. Each
      round shrinks the unresolved cells plus the queue by one, so the rounds
      end, with an empty queue and a valid state. */
  function Drain(dimension: int, st: State): (r: State)
    requires 0 < dimension && ValidState(dimension * dimension, st.grid, st.queue)
    ensures ValidState(dimension * dimension, r.grid, r.queue) && r.queue == []
    decreases |UnresolvedOf(st.grid)| + |st.queue|
  {
    if st.queue == [] then st
    else
      var next := State(st.grid, st.queue[1..]);
      UpdatedKeepsValid(next, dimension, st.queue[0].0, st.queue[0].1);
      Drain(dimension, Updated(next, dimension, st.queue[0].0, st.queue[0].1))
  }

  /** Draining the queue only narrows the grid. */
  lemma {:induction false} DrainRefines(dimension: int, st: State)
    requires 0 < dimension && ValidState(dimension * dimension, st.grid, st.queue)
    ensures Refines(st.grid, Drain(dimension, st).grid)
    decreases |UnresolvedOf(st.grid)| + |st.queue|
  {
    if st.queue != [] {
      var row, column := st.queue[0].0, st.queue[0].1;
      var next := State(st.grid, st.queue[1..]);
      var mid := Updated(next, dimension, row, column);
      UpdatedKeepsValid(next, dimension, row, column);
      UpdatedPropagates(next, dimension, row, column);
      PropagatedRefines(st.grid, dimension, row, column);
      DrainRefines(dimension, mid);
      RefinesTransitive(st.grid, mid.grid, Drain(dimension, st).grid);
    }
  }

  /** A cell that lists no `v` while unresolved keeps it that way as the grid narrows. */
  lemma ClearedKept(s: Grid, t: Grid, r: int, c: int, v: int)
    requires Refines(s, t) && 0 <= r < |s| && 0 <= c < |s|
    requires s[r][c].value.None? ==> v !in s[r][c].possible
    ensures t[r][c].value.None? ==> v !in t[r][c].possible
  {
    if v in t[r][c].possible {
      assert v in multiset(t[r][c].possible);
      assert v in multiset(s[r][c].possible);
    }
  }

  /** Once the value `v` of cell (row, column) is propagated, no unresolved
      peer of it lists `v`. */
  lemma PropagatedClears(s: Grid, dimension: int, row: int, column: int, r: int, c: int)
    requires 0 < dimension && IsGrid(s, dimension * dimension) && AllWellFormed(s)
    requires 0 <= row < |s| && 0 <= column < |s| && s[row][column].value.Some?
    requires 0 <= r < |s| && 0 <= c < |s| && Peer(dimension, row, column, r, c)
    ensures Propagated(s, dimension, row, column)[r][c].value.None? ==>
      s[row][column].value.value !in Propagated(s, dimension, row, column)[r][c].possible
  {
    PropagatedRefines(s, dimension, row, column);
    PropagatedRemovesValue(s, dimension, row, column);
  }

  /** The front coordinate of the queue, when its cell holds a value `v`, has
      had `v` propagated once the queue is drained. */
  lemma DrainClearsFront(dimension: int, st: State, r: int, c: int)
    requires 0 < dimension && ValidState(dimension * dimension, st.grid, st.queue)
    requires st.queue != [] && st.grid[st.queue[0].0][st.queue[0].1].value.Some?
    requires 0 <= r < dimension * dimension && 0 <= c < dimension * dimension
    requires Peer(dimension, st.queue[0].0, st.queue[0].1, r, c)
    ensures Drain(dimension, st).grid[r][c].value.None? ==>
      st.grid[st.queue[0].0][st.queue[0].1].value.value !in Drain(dimension, st).grid[r][c].possible
  {
    var row, column := st.queue[0].0, st.queue[0].1;
    var next := State(st.grid, st.queue[1..]);
    var mid := Updated(next, dimension, row, column);
    UpdatedKeepsValid(next, dimension, row, column);
    UpdatedPropagates(next, dimension, row, column);
    PropagatedClears(st.grid, dimension, row, column, r, c);
    DrainRefines(dimension, mid);
    ClearedKept(mid.grid, Drain(dimension, mid).grid, r, c, st.grid[row][column].value.value);
  }

  /** Every coordinate on the queue whose cell holds a value `v` has had `v`
      propagated once the queue is drained: no peer of that cell that is still
      unresolved at the end lists `v` as a candidate. */
  lemma {:induction false} DrainPropagates(dimension: int, st: State, i: int, r: int, c: int)
    requires 0 < dimension && ValidState(dimension * dimension, st.grid, st.queue)
    requires 0 <= i < |st.queue| && st.grid[st.queue[i].0][st.queue[i].1].value.Some?
    requires 0 <= r < dimension * dimension && 0 <= c < dimension * dimension
    requires Peer(dimension, st.queue[i].0, st.queue[i].1, r, c)
    ensures Drain(dimension, st).grid[r][c].value.None? ==>
      st.grid[st.queue[i].0][st.queue[i].1].value.value !in Drain(dimension, st).grid[r][c].possible
    decreases |UnresolvedOf(st.grid)| + |st.queue|
  {
    if i == 0 {
      DrainClearsFront(dimension, st, r, c);
    } else {
      var row, column := st.queue[0].0, st.queue[0].1;
      var next := State(st.grid, st.queue[1..]);
      var mid := Updated(next, dimension, row, column);
      var qr, qc := st.queue[i].0, st.queue[i].1;
      UpdatedKeepsValid(next, dimension, row, column);
      UpdatedPropagates(next, dimension, row, column);
      PropagatedAt(st.grid, dimension, row, column, qr, qc);
      assert mid.grid[qr][qc] == st.grid[qr][qc];
      assert mid.queue[i - 1] == (qr, qc);
      DrainPropagates(dimension, mid, i - 1, r, c);
    }
  }

  /** The solver (the source's class `Sudoku`): a `depth` by `depth` grid of
      cells and a FIFO work queue of coordinates whose values remain to be
      propagated. */
  class Sudoku {
    const dimension: nat
    const depth: nat
    var grid: Grid
    var queue: seq<(int, int)>
    var candidateValues: Option<seq<(int, int, int)>>

    /** (r, c) is a coordinate of the grid. */
    predicate InGrid(r: int, c: int) {
      0 <= r < depth && 0 <= c < depth
    }

    /** The object invariant: a `depth` by `depth` grid of well-formed cells and a
        queue naming only cells of the grid. */
    ghost predicate Valid()
      reads this
    {
      0 < dimension && depth == dimension * dimension && ValidState(depth, grid, queue)
    }

    /** `Sudoku(dimension, game_array)`: an empty queue, no candidates, then
        `create_array(game_array)`. */
    constructor (dimension: nat, gameArray: seq<(int, int, int)>)
      requires 0 < dimension
      requires forall i :: 0 <= i < |gameArray| ==>
        0 <= gameArray[i].0 < dimension * dimension && 0 <= gameArray[i].1 < dimension * dimension
      ensures this.dimension == dimension && depth == dimension * dimension
      ensures Valid()
      ensures forall r, c :: InGrid(r, c) ==> grid[r][c] == Seeded(gameArray, |gameArray|, r, c)
      ensures queue == seq(|gameArray|, i requires 0 <= i < |gameArray| => (gameArray[i].0, gameArray[i].1))
      ensures candidateValues == None
    {
      this.dimension := dimension;
      depth := dimension * dimension;
      queue := [];
      candidateValues := None;
      grid := [];
      new;
      CreateArray(gameArray);
    }

    /** `create_array(game_array)`: `depth` empty rows, each filled with `depth`
        blank cells, then every clue cell given its value through the `value`
        setter and its coordinate put on the queue, in input order. */
    method CreateArray(gameArray: seq<(int, int, int)>)
      requires 0 < dimension && depth == dimension * dimension
      requires forall i :: 0 <= i < |queue| ==> InGrid(queue[i].0, queue[i].1)
      requires forall i :: 0 <= i < |gameArray| ==> InGrid(gameArray[i].0, gameArray[i].1)
      modifies this`grid, this`queue
      ensures Valid()
      ensures forall r, c :: InGrid(r, c) ==> grid[r][c] == Seeded(gameArray, |gameArray|, r, c)
      ensures queue == old(queue) + seq(|gameArray|, i requires 0 <= i < |gameArray| => (gameArray[i].0, gameArray[i].1))
    {
      // create the empty rows
      grid := [];
      for i := 0 to depth
        invariant |grid| == i && forall r :: 0 <= r < i ==> grid[r] == []
        invariant queue == old(queue)
      {
        grid := grid + [[]];
      }
      // fill every row with blank fields
      for r := 0 to depth
        invariant |grid| == depth && queue == old(queue)
        invariant forall r' :: 0 <= r' < depth ==> grid[r'] == if r' < r then seq(depth, _ => Blank) else []
      {
        for c := 0 to depth
          invariant |grid| == depth && grid[r] == seq(c, _ => Blank) && queue == old(queue)
          invariant forall r' :: 0 <= r' < depth && r' != r ==> grid[r'] == if r' < r then seq(depth, _ => Blank) else []
        {
          grid := grid[r := grid[r] + [Blank]];
        }
      }
      BlankIsWellFormed();
      // populate rows
      Populate(gameArray);
    }

    /** The last loop of `create_array(game_array)`: each clue in turn sets the
        value of its cell and puts the cell's coordinate on the queue. */
    method Populate(gameArray: seq<(int, int, int)>)
      requires IsGrid(grid, depth) && forall r, c :: InGrid(r, c) ==> grid[r][c] == Blank
      requires forall i :: 0 <= i < |queue| ==> InGrid(queue[i].0, queue[i].1)
      requires forall i :: 0 <= i < |gameArray| ==> InGrid(gameArray[i].0, gameArray[i].1)
      requires WellFormed(Blank)
      modifies this`grid, this`queue
      ensures ValidState(depth, grid, queue)
      ensures forall r, c :: InGrid(r, c) ==> grid[r][c] == Seeded(gameArray, |gameArray|, r, c)
      ensures queue == old(queue) + seq(|gameArray|, i requires 0 <= i < |gameArray| => (gameArray[i].0, gameArray[i].1))
    {
      for k := 0 to |gameArray|
        invariant IsGrid(grid, depth)
        invariant forall r, c :: InGrid(r, c) ==> grid[r][c] == Seeded(gameArray, k, r, c)
        invariant |queue| == |old(queue)| + k
        invariant forall i :: 0 <= i < |old(queue)| ==> queue[i] == old(queue)[i]
        invariant forall i :: 0 <= i < k ==> queue[|old(queue)| + i] == (gameArray[i].0, gameArray[i].1)
        invariant forall i :: 0 <= i < |queue| ==> InGrid(queue[i].0, queue[i].1)
      {
        var entry := gameArray[k];
        SeededNext(gameArray, k, grid, depth);
        grid := grid[entry.0 := grid[entry.0][entry.1 := Assigned(entry.2)]];
        queue := queue + [(entry.0, entry.1)];
      }
      forall r, c | 0 <= r < |grid| && 0 <= c < |grid[r]| ensures WellFormed(grid[r][c]) {
        assert InGrid(r, c);
      }
    }

    /** A blank cell is well-formed. */
    static lemma BlankIsWellFormed()
      ensures WellFormed(Blank)
    {
      assert Blank.possible == InitialCandidates;
    }

    /** `if cell.value is None and cell.remove_possible(v): self.queue.put(put)`
        on cell (r, c): only an unresolved cell changes, and `put` joins the
        queue exactly when the cell has just been resolved. */
    method EliminateAndPut(r: int, c: int, v: Option<int>, put: (int, int))
      requires IsGrid(grid, depth) && InGrid(r, c)
      modifies this`grid, this`queue
      ensures IsGrid(grid, depth)
      ensures State(grid, queue) == Eliminate(old(State(grid, queue)), Step(r, c, put), v)
    {
      EliminateCell(State(grid, queue), Step(r, c, put), v);
      var cell := grid[r][c];
      if cell.value.None? {
        var resolved := Resolves(cell, v);
        grid := grid[r := grid[r][c := Remove(cell, v)]];
        if resolved {
          queue := queue + [put];
        }
      }
    }

    /** `update_cell(row, column)`: the row, column and block passes remove the
        value of cell (row, column) from its unresolved peers and put on the
        queue the coordinates the source writes for the cells this resolves. */
    method UpdateCell(row: int, column: int)
      requires Valid() && InGrid(row, column)
      modifies this`grid, this`queue
      ensures State(grid, queue) == Updated(old(State(grid, queue)), dimension, row, column)
      ensures Valid()
      ensures grid == Propagated(old(grid), dimension, row, column)
      ensures queue == old(queue) + Puts(old(grid), dimension, row, column)
      ensures |UnresolvedOf(grid)| + |queue| == old(|UnresolvedOf(grid)| + |queue|)
    {
      ghost var st0 := State(grid, queue);
      var value := grid[row][column].value;
      // update and enqueue row
      RowPass(row, column, value);
      ghost var st1 := State(grid, queue);
      // update column
      ColumnPass(row, column, value);
      ghost var st2 := State(grid, queue);
      // the column loop leaves its variable `index` at depth - 1
      var index := depth - 1;
      // update dimension*dimension block
      BlockPass(row, column, value, index, BlockStart(dimension, row), BlockStart(dimension, column));
      PassesUpdate(st0, st1, st2, State(grid, queue), dimension, row, column);
    }

    /** The row loop of `update_cell(row, column)`: every cell (row, index) of
        the row but the target is visited, putting `(row, index)`. */
    method RowPass(row: int, column: int, value: Option<int>)
      requires IsGrid(grid, depth) && 0 <= row < depth
      modifies this`grid, this`queue
      ensures IsGrid(grid, depth)
      ensures State(grid, queue) == Run(old(State(grid, queue)), RowSteps(row, column, depth), value)
    {
      ghost var st := State(grid, queue);
      for index := 0 to depth
        invariant IsGrid(grid, depth)
        invariant State(grid, queue) == Run(st, RowSteps(row, column, index), value)
      {
        if index != column {
          EliminateAndPut(row, index, value, (row, index));
        }
      }
    }

    /** The column loop of `update_cell(row, column)`: every cell
        (index, column) of the column but the target is visited, putting
        `(row, index)` as the source writes it. */
    method ColumnPass(row: int, column: int, value: Option<int>)
      requires IsGrid(grid, depth) && 0 <= column < depth
      modifies this`grid, this`queue
      ensures IsGrid(grid, depth)
      ensures State(grid, queue) == Run(old(State(grid, queue)), ColumnSteps(row, column, depth), value)
    {
      ghost var st := State(grid, queue);
      for index := 0 to depth
        invariant IsGrid(grid, depth)
        invariant State(grid, queue) == Run(st, ColumnSteps(row, column, index), value)
      {
        if index != row {
          EliminateAndPut(index, column, value, (row, index));
        }
      }
    }

    /** The block loops of `update_cell(row, column)` over the block whose top
        left cell is (blockRowStart, blockColumnStart): every cell of it
        outside the target's row and column is visited, putting
        `(row, index)` with the `index` the column loop left behind. */
    method BlockPass(row: int, column: int, value: Option<int>, index: int, blockRowStart: int, blockColumnStart: int)
      requires IsGrid(grid, depth)
      requires 0 <= blockRowStart && blockRowStart + dimension <= depth
      requires 0 <= blockColumnStart && blockColumnStart + dimension <= depth
      modifies this`grid, this`queue
      ensures IsGrid(grid, depth)
      ensures State(grid, queue) ==
        Run(old(State(grid, queue)), BlockSteps(row, column, index, blockRowStart, blockColumnStart, dimension, blockRowStart + dimension), value)
    {
      ghost var st := State(grid, queue);
      for rowIndex := blockRowStart to blockRowStart + dimension
        invariant IsGrid(grid, depth)
        invariant State(grid, queue) ==
          Run(st, BlockSteps(row, column, index, blockRowStart, blockColumnStart, dimension, rowIndex), value)
      {
        ghost var before := State(grid, queue);
        BlockRowPass(row, column, value, index, rowIndex, blockColumnStart);
        BlockRowDone(st, before, State(grid, queue), value, row, column, index, blockRowStart, blockColumnStart, dimension, rowIndex);
      }
    }

    /** The inner block loop for block row `rowIndex`: every cell of it from
        column `blockColumnStart` on, outside the target's row and column, is
        visited, putting `(row, index)`. */
    method BlockRowPass(row: int, column: int, value: Option<int>, index: int, rowIndex: int, blockColumnStart: int)
      requires IsGrid(grid, depth)
      requires 0 <= rowIndex < depth && 0 <= blockColumnStart && blockColumnStart + dimension <= depth
      modifies this`grid, this`queue
      ensures IsGrid(grid, depth)
      ensures State(grid, queue) ==
        Run(old(State(grid, queue)), BlockRowSteps(row, column, index, rowIndex, blockColumnStart, blockColumnStart + dimension), value)
    {
      ghost var st := State(grid, queue);
      for columnIndex := blockColumnStart to blockColumnStart + dimension
        invariant IsGrid(grid, depth)
        invariant State(grid, queue) == Run(st, BlockRowSteps(row, column, index, rowIndex, blockColumnStart, columnIndex), value)
      {
        if rowIndex != row && columnIndex != column {
          EliminateAndPut(rowIndex, columnIndex, value, (row, index));
        }
      }
    }

    /** `simple_solve()`: takes coordinates from the front of the queue and calls
        `update_cell` on each until the queue is empty, then builds the result.
        The loop ends because every put stands for a newly resolved cell. */
    method SimpleSolve() returns (result: Result<seq<seq<int>>, GameError>)
      requires Valid()
      modifies this`grid, this`queue
      ensures State(grid, queue) == Drain(dimension, old(State(grid, queue)))
      ensures Valid() && queue == []
      ensures Refines(old(grid), grid)
      ensures Extracted(grid, result)
    {
      while queue != []
        invariant Valid()
        invariant Drain(dimension, State(grid, queue)) == Drain(dimension, old(State(grid, queue)))
        decreases |UnresolvedOf(grid)| + |queue|
      {
        var (row, column) := queue[0];
        queue := queue[1..];
        UpdateCell(row, column);
      }
      DrainRefines(dimension, old(State(grid, queue)));
      result := BuildResult();
    }

    /** `build_result()`: the values of the grid, row by row, or `GameError` as
        soon as a row holds a cell without a value. */
    method BuildResult() returns (result: Result<seq<seq<int>>, GameError>)
      requires IsGrid(grid, depth)
      ensures Extracted(grid, result)
    {
      var rows: seq<seq<int>> := [];
      for r := 0 to depth
        invariant |rows| == r
        invariant forall i :: 0 <= i < r ==> |rows[i]| == depth
        invariant forall i, j :: 0 <= i < r && 0 <= j < depth ==> grid[i][j].value == Some(rows[i][j])
      {
        // the values of the row, in order
        var cells: seq<Option<int>> := [];
        for c := 0 to depth
          invariant |cells| == c && forall j :: 0 <= j < c ==> cells[j] == grid[r][j].value
        {
          cells := cells + [grid[r][c].value];
        }
        if exists j :: 0 <= j < depth && cells[j].None? {
          return Failure(GameError("Not solved"));
        }
        rows := rows + [seq(depth, j requires 0 <= j < depth => if cells[j].Some? then cells[j].value else 0)];
      }
      return Success(rows);
    }

    /** `enqueue_candidates()`: the guesses for the cells with the fewest
        candidates become the new `candidate_values`. */
    method EnqueueCandidates()
      requires Valid()
      modifies this`candidateValues
      ensures Valid()
      ensures exists minimum :: Fewest(grid, minimum) && candidateValues == Some(GridGuesses(grid, depth, minimum))
    {
      candidateValues := Some([]);
      var minimum := FewestCandidates();
      var guesses := Guesses(minimum);
      candidateValues := Some(guesses);
    }

    /** The first scan of `enqueue_candidates`: starting from 9, the smallest
        candidate count above one. */
    method FewestCandidates() returns (minimum: int)
      requires IsGrid(grid, depth)
      ensures Fewest(grid, minimum)
    {
      minimum := 9;
      ghost var wr, wc := 0, 0;
      for row := 0 to depth
        invariant 1 < minimum <= 9
        invariant forall r, c :: 0 <= r < row && 0 <= c < depth && 1 < |grid[r][c].possible| ==>
          minimum <= |grid[r][c].possible|
        invariant minimum < 9 ==> InGrid(wr, wc) && |grid[wr][wc].possible| == minimum
      {
        for column := 0 to depth
          invariant 1 < minimum <= 9
          invariant forall r, c :: InGrid(r, c) && (r < row || (r == row && c < column)) && 1 < |grid[r][c].possible| ==>
            minimum <= |grid[r][c].possible|
          invariant minimum < 9 ==> InGrid(wr, wc) && |grid[wr][wc].possible| == minimum
        {
          var cell := grid[row][column];
          if |cell.possible| < minimum && |cell.possible| > 1 {
            minimum := |cell.possible|;
            wr, wc := row, column;
          }
        }
      }
    }

    /** The second scan of `enqueue_candidates`: a guess (row, column, value) for
        each candidate of each cell with exactly `minimum` candidates, in
        row-major order and then candidate order. */
    method Guesses(minimum: int) returns (guesses: seq<(int, int, int)>)
      requires IsGrid(grid, depth)
      ensures guesses == GridGuesses(grid, depth, minimum)
    {
      guesses := [];
      for row := 0 to depth
        invariant guesses == GridGuesses(grid, row, minimum)
      {
        for column := 0 to depth
          invariant guesses == GridGuesses(grid, row, minimum) + RowGuesses(grid, row, column, minimum)
        {
          var cell := grid[row][column];
          ghost var done := guesses;
          if |cell.possible| == minimum {
            for i := 0 to |cell.possible|
              invariant guesses == done + CellGuesses(row, column, cell.possible, i)
            {
              AppendOne(done, CellGuesses(row, column, cell.possible, i), (row, column, cell.possible[i]));
              guesses := guesses + [(row, column, cell.possible[i])];
            }
          }
        }
      }
    }
  }
}
