# A verified model of a constraint-propagation Sudoku solver

This project models the solver in `sudoku/solver.py` in Dafny and proves properties of the model. The solver works on a `depth` by `depth` grid, where `depth = dimension * dimension`.

- **Cells.** Each cell (a `Field`) holds a list of candidate values and an optional value.
- **The queue.** A FIFO work queue holds the coordinates of cells whose value still has to be removed from their peers. A peer is another cell of the same row, column or `dimension` by `dimension` block.
- **`create_array`** seeds the grid and the queue from clue triples `(row, column, value)`.
- **`update_cell`** removes the value of one cell from its unresolved peers. It puts a coordinate on the queue for every peer that this leaves with a single candidate.
- **`simple_solve`** drains the queue through `update_cell`.
- **`build_result`** reads the solved grid back, or fails with `GameError`.
- **`enqueue_candidates`** lists the guesses for the cells with the fewest candidates.

The model follows the code as written:

- A fresh cell lists the candidates 1..9 whatever the dimension, and the candidate scan starts from `minimum = 9`.
- The column pass of `update_cell` puts `(row, index)`, not the coordinate `(index, column)` of the cell it resolved.
- The block pass puts `(row, index)`, with `index` left at `depth - 1` by the column loop.
- As a consequence, a coordinate on the queue may name a cell without a value. `update_cell` on such a cell removes `None`, which changes nothing.

Modules:

- `Wrappers`: the `Option` and `Result` types.
- `Fields`: a cell as a value (`Cell`), `list.remove` (`Without`), `remove_possible` (`Remove`), and the class `Field` with its `value` setter and `remove_possible` updating it in place.
- `Geometry`: block starts and peers.
- `Board`: the grid as a value.
  - `Propagated` is the grid that `update_cell` is meant to leave.
  - `Run` gives the state after a list of visits (a `Trail`). Each visit runs `cell.value is None and cell.remove_possible(value)` on one cell and puts a coordinate when that returns `True`.
  - Lemmas about `Run` cover the resulting grid, the queue, and the count of unresolved cells plus queued coordinates.
- `Passes`: the visits of the row, column and block passes of `update_cell`, in loop order and with the coordinates the source puts. `Updated` is the state they leave. The proofs show that the passes visit exactly the peers, each once. So `Updated` yields `Propagated`, and every put stands for one newly resolved cell.
- `Solver`: the class `Sudoku`, whose methods update `grid` and `queue` in place. Each method is proved against the functions above.

## Model

| member | source | states |
|---|---|---|
| Fields.Without | sudoku/solver.py:24 | `list.remove`: for a present value the list loses exactly one element; an absent value leaves the list as it is |
| Fields.WithoutMultiset | sudoku/solver.py:24 | removing a present value takes exactly one copy of it out of the list |
| Fields.WithoutDistinct | sudoku/solver.py:24 | removing a value from a list without repeats leaves a list without repeats that no longer holds the value |
| Fields.Assigned | sudoku/solver.py:15-19 | a cell just given value `v` by the setter is well-formed and has value `v` |
| Fields.Remove | sudoku/solver.py:21-28 | when `remove_possible(x)` reports `True` (`Resolves`: `x` was a candidate and one candidate is left after taking it out), the cell holds that one candidate as its value; an absent `x` (and `None`) leaves the cell untouched; candidates only shrink; a resolved well-formed cell keeps its value |
| Fields.RemoveFromUnresolved | sudoku/solver.py:21-28 | on an unresolved well-formed cell: the cell stays well-formed and loses `x`; the other candidates keep their order (the list minus the first occurrence of `x`); the cell gains a value exactly when `remove_possible` returns `True`; that value is the one remaining candidate |
| Fields.Field.constructor | sudoku/solver.py:7-9 | `Field(v)` lists 1..9 then applies the setter: a blank cell for `None`, otherwise the cell assigned `v` |
| Fields.Field.SetValue | sudoku/solver.py:15-19 | the setter stores `v` and collapses the candidates to `[v]` for a value; `None` leaves them unchanged |
| Fields.Field.RemovePossible | sudoku/solver.py:21-28 | the field's new state is `Remove` of its old state, and the result is whether that resolved it |
| Geometry.BlockStart | sudoku/solver.py:121-122 | `(i // dimension) * dimension` is the start of a block of `dimension` indices that holds `i` and lies inside the grid |
| Geometry.InBlock | sudoku/solver.py:124-125 | an index lies in the block range starting at `BlockStart(i)` exactly when it has the same quotient by `dimension` as `i` |
| Geometry.PassesArePeers | sudoku/solver.py:105-127 | the cells the three passes do not skip are exactly the peers of the target cell |
| Board.PropagatedRefines | sudoku/solver.py:102-130 | propagation only narrows: resolved cells and the target keep their state, no candidate is gained, and cells stay well-formed |
| Board.PropagatedRemovesValue | sudoku/solver.py:103-130 | after propagating value `v`, no peer that was unresolved still lists `v` |
| Board.PropagatedFromUnresolved | sudoku/solver.py:21-23 | propagating from a cell without a value (`remove_possible(None)`) leaves the grid unchanged |
| Board.RefinesTransitive | sudoku/solver.py:69-72 | narrowing twice is narrowing, so the whole of `simple_solve` only narrows |
| Board.EliminatedKeepsInvariant | sudoku/solver.py:109 | one visit keeps the grid's shape and well-formedness; the unresolved count drops by one exactly when `remove_possible` reports the cell resolved |
| Board.EliminatedNone | sudoku/solver.py:21-23 | visiting with `None` changes nothing and resolves nothing |
| Board.EliminateCell | sudoku/solver.py:109-110 | a visit leaves a resolved cell alone; otherwise it narrows the cell and puts the coordinate exactly when `remove_possible` returns `True` |
| Board.RunAt | sudoku/solver.py:105-130 | visits without repeats change each cell exactly as `Visit` says: `x` is removed from an unresolved cell iff the cell is visited |
| Board.RunKeeps | sudoku/solver.py:109-110 | visits keep shape and well-formedness, and the unresolved cells plus the queue keep their total size |
| Board.RunQueue | sudoku/solver.py:105-130 | visits only append to the queue, whatever it held, and everything they append is a put of one of them |
| Board.RunGathers | sudoku/solver.py:105-130 | visits without repeats each find their cell as it was at the start, so they append exactly `Gathered`: the put of each visit whose cell `remove_possible` resolves in the starting grid, in visit order |
| Board.GatheredCount | sudoku/solver.py:105-130 | visits without repeats gather one put per cell they resolve, and only puts of their own |
| Board.GatheredConcat | sudoku/solver.py:105-130 | the puts of two visit lists run in turn are the puts of the first followed by those of the second |
| Passes.RowStepsVisit | sudoku/solver.py:105-110 | the row pass visits each cell of the target's row other than the target, once, and puts only `(row, j)` |
| Passes.ColumnStepsVisit | sudoku/solver.py:113-118 | the column pass visits each cell of the target's column other than the target, once, and puts `(row, j)`, not the resolved cell's coordinate |
| Passes.BlockRowStepsVisit | sudoku/solver.py:125-130 | one block row visits its cells outside the target's row and column, once each, and puts only `(row, stale index)` |
| Passes.BlockStepsVisit | sudoku/solver.py:124-130 | the block pass visits each cell of the block outside the target's row and column, once, and puts only `(row, stale index)` |
| Passes.PassStepsVisit | sudoku/solver.py:105-130 | the three passes together visit the rest of the row, the rest of the column and the block cells outside both; they put only in the target's row |
| Passes.PassStepsUnrepeated | sudoku/solver.py:105-130 | the three passes never visit a cell twice |
| Passes.UpdateStepsVisit | sudoku/solver.py:102-130 | `update_cell` visits exactly the peers of the target, and every coordinate it may put lies in the target's row |
| Passes.UpdateStepsUnrepeated | sudoku/solver.py:102-130 | `update_cell` visits no cell twice |
| Passes.UpdatedPropagates | sudoku/solver.py:102-130 | the grid `update_cell` leaves is `Propagated`: the target's value removed from every unresolved peer, nothing else changed |
| Passes.UpdatedKeepsValid | sudoku/solver.py:102-130 | `update_cell` keeps the state valid and only appends to the queue; the unresolved count plus the queue length is unchanged |
| Passes.PassesUpdate | sudoku/solver.py:102-130 | the row, column and block passes run in turn with the target's value give the state `Updated` describes, with its properties |
| Passes.PutsOnTargetRow | sudoku/solver.py:113-130 | every coordinate `update_cell` puts lies in the target's own row, so a cell resolved elsewhere is never put under its own coordinate |
| Passes.PutsCountResolved | sudoku/solver.py:105-130 | `update_cell` puts exactly as many coordinates as it resolves cells |
| Passes.PutsSplit | sudoku/solver.py:102-130 | `update_cell` puts `RowPuts`, then `ColumnPuts`, then `BlockPuts`, all judged on the grid it starts from |
| Passes.RowPutsMember | sudoku/solver.py:105-110 | the row pass puts `(row, j)` exactly for the cells (row, j), `j != column`, that `remove_possible` resolves, once each, by increasing `j` |
| Passes.ColumnPutsMember | sudoku/solver.py:113-118 | the column pass puts `(row, i)` exactly for the cells (i, column), `i != row`, that `remove_possible` resolves, once each, by increasing `i`: the resolved cell's row index lands in the column position of a coordinate in the target's row |
| Passes.BlockGathered | sudoku/solver.py:121-130 | the block pass puts `(row, depth - 1)` once for each cell of the block, outside the target's row and column, that `remove_possible` resolves, and nothing else |
| Passes.RowGathered | sudoku/solver.py:105-110 | the row pass's visits put what `RowPuts` lists |
| Passes.ColumnGathered | sudoku/solver.py:113-118 | the column pass's visits put what `ColumnPuts` lists |
| Solver.ClueAtIsLastClue | sudoku/solver.py:59-60 | a cell gets a clue value iff some clue names it, and the value is that of the last such clue |
| Solver.CellGuessesMember | sudoku/solver.py:165-166 | the guesses for one cell are its candidates, in list order |
| Solver.RowGuessesMember | sudoku/solver.py:160-166 | the guesses along a row are the triples for its cells with exactly `minimum` candidates |
| Solver.GridGuessesMember | sudoku/solver.py:159-166 | the guesses are exactly the triples `(r, c, v)` where cell (r, c) has exactly `minimum` candidates and `v` is one of them |
| Solver.FewestIsUnique | sudoku/solver.py:149-156 | at most one count meets the description of `minimum` |
| Solver.Drain | sudoku/solver.py:69-72 | the loop of `simple_solve` ends, with an empty queue and a valid state: each round shrinks the unresolved cells plus the queue by one |
| Solver.DrainRefines | sudoku/solver.py:69-72 | draining the queue only narrows the grid: resolved cells keep their state and no candidate is gained |
| Solver.DrainPropagates | sudoku/solver.py:69-72 | for every coordinate on the queue whose cell holds a value `v`, no peer of that cell still unresolved after the drain lists `v` |
| Solver.DrainClearsFront | sudoku/solver.py:69-72 | the same for the coordinate at the front of the queue, whose `update_cell` runs first |
| Solver.PropagatedClears | sudoku/solver.py:102-130 | after `update_cell` propagates the value `v` of a cell, no unresolved peer of it lists `v` |
| Solver.ClearedKept | sudoku/solver.py:69-72 | a cell that lists no `v` while unresolved keeps it that way as the grid narrows |
| Solver.SeededNext | sudoku/solver.py:59-60 | setting the value named by clue `k` turns the grid seeded by the first `k` clues into the grid seeded by the first `k + 1` |
| Solver.Sudoku.constructor | sudoku/solver.py:36-41 | `Sudoku(dimension, game_array)`: an empty queue, no candidates, then the grid and queue `create_array` builds |
| Solver.Sudoku.CreateArray | sudoku/solver.py:50-61 | the grid is `depth` by `depth`; each clue cell holds the value of its last clue, the rest are blank; the clue coordinates are appended to the queue in input order; the state is valid |
| Solver.Sudoku.Populate | sudoku/solver.py:58-61 | each clue in turn sets its cell's value and puts its coordinate, so the queue gains the clue coordinates in order |
| Solver.Sudoku.BlankIsWellFormed | sudoku/solver.py:8-9 | a fresh blank cell is well-formed |
| Solver.Sudoku.EliminateAndPut | sudoku/solver.py:128-130 | one guarded `remove_possible` and put changes the state as `Eliminate` says |
| Solver.Sudoku.UpdateCell | sudoku/solver.py:102-130 | the new grid is `Propagated` of the old; the queue gains `Puts`; the state stays valid; the unresolved count plus queue length is unchanged |
| Solver.Sudoku.RowPass | sudoku/solver.py:105-110 | the row loop leaves the state `Run` gives for the row pass's visits |
| Solver.Sudoku.ColumnPass | sudoku/solver.py:113-118 | the column loop leaves the state `Run` gives for the column pass's visits |
| Solver.Sudoku.BlockPass | sudoku/solver.py:121-130 | the block loops leave the state `Run` gives for the block pass's visits, with the stale index in the puts |
| Solver.Sudoku.BlockRowPass | sudoku/solver.py:125-130 | one inner block loop leaves the state `Run` gives for that block row |
| Solver.Sudoku.SimpleSolve | sudoku/solver.py:69-73 | the new grid and queue are `Drain` of the old state: coordinates taken from the front of the queue, `update_cell` run on each, until the queue is empty; the state stays valid; the grid only narrowed; the result is what `build_result` gives for it |
| Solver.Sudoku.BuildResult | sudoku/solver.py:132-139 | `GameError` iff some cell has no value, otherwise `depth` rows of `depth` values equal to the cells' values; the grid is not modified |
| Solver.Sudoku.EnqueueCandidates | sudoku/solver.py:141-166 | `candidate_values` becomes the guesses for the cells with the fewest candidates; the grid is untouched |
| Solver.Sudoku.FewestCandidates | sudoku/solver.py:149-156 | `minimum` is the least candidate count above one, or 9 when no cell has between 2 and 8 candidates |
| Solver.Sudoku.Guesses | sudoku/solver.py:158-166 | the guesses are built in row-major and then candidate order, as `GridGuesses` lists them |

## Left out

- `complex_solve` and `solve` (sudoku/solver.py:63-67, 75-99) are not modelled. `complex_solve` guesses and backtracks through `deepcopy` and aliasing of `backup_array`, and `solve` only dispatches to it on `GameError`. The field `backup_array`, set only for it, is left out with it.
- `__repr__` (sudoku/solver.py:44-48) is a debugging dump and is left out.
- The queue is a sequence: the thread-safety of `queue.Queue` is not modelled, since the solver is single-threaded.
- The grid is held as a value, a sequence of rows of `Cell` values, not as the `Field` objects of the source. The class `Field` is modelled on its own. The solver's cells are distinct objects created by `create_array` and never shared, so no aliasing is lost.
- Solver.Sudoku.CreateArray and Solver.Sudoku.constructor: clue coordinates are required to lie inside the grid. Python's negative indices and its `IndexError` on a bad coordinate are not modelled.
- Solver.Sudoku.constructor: `dimension` is required to be positive. The source also accepts `Sudoku(0, [])`, and a negative `dimension`, which gives a positive `depth` and an empty block pass. These are outside the solver's interface of `dimension` by `dimension` blocks.
- Solver.Sudoku.constructor: clue values are integers, so a clue whose value is `None` cannot be expressed. In the source such a clue queues its coordinate and leaves the cell blank.
- Solver.Sudoku.UpdateCell: the row, column and block loops run in the helper methods `RowPass`, `ColumnPass`, `BlockPass` and `BlockRowPass`, not inline. The last clue loop of `create_array` likewise runs in `Populate`. The order of the visits and of the puts is the source's.
- A `GameError` is modelled as a `Failure` result rather than an exception.
- Solver.Sudoku.BuildResult: when it fails, the model stops at the first row holding a cell without a value, as the source does. It does not model the partial `result` list the exception discards.
