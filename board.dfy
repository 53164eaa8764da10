/** The grid as a value: its shape and invariant, what one elimination does to
    it, and the grid `update_cell` is meant to leave behind. */
module Board {
  import opened Wrappers
  import opened Fields
  import opened Geometry

  /** A snapshot of the grid: row by row, the state of every cell. */
  type Grid = seq<seq<Cell>>

  /** `s` is a `depth` by `depth` grid. */
  predicate IsGrid(s: Grid, depth: int) {
    |s| == depth && forall r :: 0 <= r < depth ==> |s[r]| == depth
  }

  /** Every cell of `s` is well-formed. */
  predicate AllWellFormed(s: Grid) {
    forall r, c :: 0 <= r < |s| && 0 <= c < |s[r]| ==> WellFormed(s[r][c])
  }

  /** `t` is `s` with some unresolved cells narrowed: the same shape, every
      resolved cell of `s` unchanged, and no cell gaining a candidate. */
  predicate Refines(s: Grid, t: Grid) {
    IsGrid(s, |s|) && IsGrid(t, |s|) &&
    forall r, c :: 0 <= r < |s| && 0 <= c < |s| ==>
      (s[r][c].value.Some? ==> t[r][c] == s[r][c]) && multiset(t[r][c].possible) <= multiset(s[r][c].possible)
  }

  /** Narrowing twice is narrowing. */
  lemma RefinesTransitive(s: Grid, t: Grid, u: Grid)
    requires Refines(s, t) && Refines(t, u)
    ensures Refines(s, u)
  {
    forall r, c | 0 <= r < |s| && 0 <= c < |s|
      ensures multiset(u[r][c].possible) <= multiset(s[r][c].possible)
    {
      assert multiset(u[r][c].possible) <= multiset(t[r][c].possible);
    }
  }

  /** The grid `update_cell(row, column)` leaves behind: the value of cell
      (row, column) removed from every unresolved peer of it. */
  function Propagated(s: Grid, dimension: int, row: int, column: int): (t: Grid)
    requires 0 < dimension && IsGrid(s, dimension * dimension) && 0 <= row < |s| && 0 <= column < |s|
    ensures IsGrid(t, |s|)
  {
    seq(|s|, r requires 0 <= r < |s| =>
      seq(|s|, c requires 0 <= c < |s| => Visit(s[r][c], Peer(dimension, row, column, r, c), s[row][column].value)))
  }

  /** Cell (r, c) after propagation from (row, column). */
  lemma PropagatedAt(s: Grid, dimension: int, row: int, column: int, r: int, c: int)
    requires 0 < dimension && IsGrid(s, dimension * dimension) && 0 <= row < |s| && 0 <= column < |s|
    requires 0 <= r < |s| && 0 <= c < |s|
    ensures Propagated(s, dimension, row, column)[r][c] == Visit(s[r][c], Peer(dimension, row, column, r, c), s[row][column].value)
  {
  }

  /** Propagation only narrows: the cell itself and every resolved cell keep
      their state, no candidate is gained, and well-formed cells stay
      well-formed. */
  lemma {:induction false} PropagatedRefines(s: Grid, dimension: int, row: int, column: int)
    requires 0 < dimension && IsGrid(s, dimension * dimension) && 0 <= row < |s| && 0 <= column < |s|
    requires AllWellFormed(s)
    ensures Refines(s, Propagated(s, dimension, row, column))
    ensures AllWellFormed(Propagated(s, dimension, row, column))
    ensures Propagated(s, dimension, row, column)[row][column] == s[row][column]
  {
    var t: Grid := Propagated(s, dimension, row, column);
    forall r, c | 0 <= r < |s| && 0 <= c < |s|
      ensures WellFormed(t[r][c])
      ensures (s[r][c].value.Some? ==> t[r][c] == s[r][c]) && multiset(t[r][c].possible) <= multiset(s[r][c].possible)
    {
      PropagatedAt(s, dimension, row, column, r, c);
      if s[r][c].value.None? {
        RemoveFromUnresolved(s[r][c], s[row][column].value);
      }
    }
    PropagatedAt(s, dimension, row, column, row, column);
  }

  /** After propagating the value `v` of cell (row, column), no peer that was
      unresolved still lists `v` as a candidate. */
  lemma {:induction false} PropagatedRemovesValue(s: Grid, dimension: int, row: int, column: int)
    requires 0 < dimension && IsGrid(s, dimension * dimension) && 0 <= row < |s| && 0 <= column < |s|
    requires AllWellFormed(s) && s[row][column].value.Some?
    ensures forall r, c :: 0 <= r < |s| && 0 <= c < |s| && Peer(dimension, row, column, r, c) && s[r][c].value.None? ==>
      s[row][column].value.value !in Propagated(s, dimension, row, column)[r][c].possible
  {
    var t: Grid := Propagated(s, dimension, row, column);
    forall r, c | 0 <= r < |s| && 0 <= c < |s| && Peer(dimension, row, column, r, c) && s[r][c].value.None?
      ensures s[row][column].value.value !in t[r][c].possible
    {
      PropagatedAt(s, dimension, row, column, r, c);
      RemoveFromUnresolved(s[r][c], s[row][column].value);
    }
  }

  /** Propagating from a cell that has no value changes nothing. */
  lemma {:induction false} PropagatedFromUnresolved(s: Grid, dimension: int, row: int, column: int)
    requires 0 < dimension && IsGrid(s, dimension * dimension) && 0 <= row < |s| && 0 <= column < |s|
    requires s[row][column].value.None?
    ensures Propagated(s, dimension, row, column) == s
  {
    var t: Grid := Propagated(s, dimension, row, column);
    forall r | 0 <= r < |s|
      ensures t[r] == s[r]
    {
      forall c | 0 <= c < |s| ensures t[r][c] == s[r][c] {
        PropagatedAt(s, dimension, row, column, r, c);
      }
    }
  }

  /** The coordinates of the cells of `s` that have no value. */
  function UnresolvedOf(s: Grid): set<(int, int)>
  {
    set r, c | 0 <= r < |s| && 0 <= c < |s[r]| && s[r][c].value.None? :: (r, c)
  }

  /** When `t` differs from `s` in at most the value of cell `at`, and that cell
      does not lose a value, the unresolved set loses `at` exactly when the cell
      gains one. */
  lemma UnresolvedAfterOne(s: Grid, t: Grid, at: (int, int))
    requires IsGrid(s, |s|) && IsGrid(t, |s|) && 0 <= at.0 < |s| && 0 <= at.1 < |s|
    requires forall i, j :: 0 <= i < |s| && 0 <= j < |s| && (i, j) != at ==> t[i][j].value == s[i][j].value
    requires s[at.0][at.1].value.Some? ==> t[at.0][at.1].value.Some?
    ensures UnresolvedOf(t) ==
      if s[at.0][at.1].value.None? && t[at.0][at.1].value.Some? then UnresolvedOf(s) - {at} else UnresolvedOf(s)
    ensures |UnresolvedOf(t)| + (if s[at.0][at.1].value.None? && t[at.0][at.1].value.Some? then 1 else 0) == |UnresolvedOf(s)|
  {
    assert s[at.0][at.1].value.None? ==> at in UnresolvedOf(s);
  }

  /** `s` after `cell.value is None and cell.remove_possible(v)` on cell (r, c). */
  function Eliminated(s: Grid, r: int, c: int, v: Option<int>): (t: Grid)
    requires 0 <= r < |s| && 0 <= c < |s[r]|
    ensures |t| == |s| && forall i :: 0 <= i < |s| ==> |t[i]| == |s[i]|
  {
    s[r := s[r][c := Visit(s[r][c], true, v)]]
  }

  /** One elimination keeps the grid's shape and well-formedness, and the cell
      leaves the unresolved set exactly when `remove_possible` reports it
      resolved. */
  lemma EliminatedKeepsInvariant(s: Grid, r: int, c: int, v: Option<int>)
    requires IsGrid(s, |s|) && AllWellFormed(s) && 0 <= r < |s| && 0 <= c < |s|
    ensures IsGrid(Eliminated(s, r, c, v), |s|) && AllWellFormed(Eliminated(s, r, c, v))
    ensures |UnresolvedOf(Eliminated(s, r, c, v))| + (if Collapses(s, r, c, v) then 1 else 0) == |UnresolvedOf(s)|
  {
    var t := Eliminated(s, r, c, v);
    if s[r][c].value.None? {
      RemoveFromUnresolved(s[r][c], v);
    }
    forall i, j | 0 <= i < |t| && 0 <= j < |t[i]| ensures WellFormed(t[i][j]) {
      if i != r || j != c {
        assert t[i][j] == s[i][j];
      }
    }
    UnresolvedAfterOne(s, t, (r, c));
  }

  /** Eliminating `None` changes nothing and resolves nothing. */
  lemma EliminatedNone(s: Grid, r: int, c: int)
    requires 0 <= r < |s| && 0 <= c < |s[r]|
    ensures Eliminated(s, r, c, None) == s && !Collapses(s, r, c, None)
  {
    assert s[r][c := s[r][c]] == s[r];
    assert s[r := s[r]] == s;
  }

  /** Cell `c` after a pass that removes `x` from it when `hit` holds: only an
      unresolved cell is changed. */
  function Visit(c: Cell, hit: bool, x: Option<int>): Cell
  {
    if hit && c.value.None? then Remove(c, x) else c
  }

  /** Cell (r, c) of `s` has no value and `remove_possible(v)` reports it resolved. */
  predicate Collapses(s: Grid, r: int, c: int, v: Option<int>) {
    0 <= r < |s| && 0 <= c < |s[r]| && s[r][c].value.None? && Resolves(s[r][c], v)
  }

  /** What the solver keeps true of its grid `s` and queue `q`: `s` is a
      `depth` by `depth` square of well-formed cells and the queue names only
      cells of it. */
  predicate ValidState(depth: int, s: Grid, q: seq<(int, int)>) {
    IsGrid(s, depth) && AllWellFormed(s) &&
    forall i :: 0 <= i < |q| ==> 0 <= q[i].0 < |s| && 0 <= q[i].1 < |s|
  }

  /** The solver's mutable state as a value: the grid and the work queue. */
  datatype State = State(grid: Grid, queue: seq<(int, int)>)

  /** One visit of a pass of `update_cell`: the cell (r, c) it looks at and the
      coordinate it puts on the queue when that resolves the cell. */
  datatype Step = Step(r: int, c: int, put: (int, int))

  /** `cell = array[r][c]; if cell.value is None and cell.remove_possible(x):
      queue.put(put)` for the step's cell; a cell outside the grid is never
      visited. */
  function Eliminate(st: State, step: Step, x: Option<int>): State
  {
    if 0 <= step.r < |st.grid| && 0 <= step.c < |st.grid[step.r]| then
      State(Eliminated(st.grid, step.r, step.c, x),
            st.queue + if Collapses(st.grid, step.r, step.c, x) then [step.put] else [])
    else st
  }

  /** A visit inside the grid leaves a resolved cell alone, and otherwise
      narrows the cell by `remove_possible(x)`, putting `step.put` exactly when
      that reports the cell resolved; the grid keeps its shape. */
  lemma EliminateCell(st: State, step: Step, x: Option<int>)
    requires IsGrid(st.grid, |st.grid|) && 0 <= step.r < |st.grid| && 0 <= step.c < |st.grid|
    ensures IsGrid(Eliminate(st, step, x).grid, |st.grid|)
    ensures Eliminate(st, step, x) ==
      var cell := st.grid[step.r][step.c];
      if cell.value.Some? then st
      else State(st.grid[step.r := st.grid[step.r][step.c := Remove(cell, x)]],
                 st.queue + if Resolves(cell, x) then [step.put] else [])
  {
    var cell := st.grid[step.r][step.c];
    if cell.value.Some? {
      assert st.grid[step.r][step.c := cell] == st.grid[step.r];
      assert st.grid[step.r := st.grid[step.r]] == st.grid;
    }
  }

  /** A list of visits, built by adding one at the end: `Start` is no visit
      yet, `Then(before, step)` is the visits `before` followed by `step`. */
  datatype Trail = Start | Then(before: Trail, step: Step)

  /** The visits of `a` followed by those of `b`. */
  function Append(a: Trail, b: Trail): Trail
  {
    match b
    case Start => a
    case Then(before, step) => Then(Append(a, before), step)
  }

  /** The state after the visits of `t`, in order, each removing `x`. */
  function Run(st: State, t: Trail, x: Option<int>): State
  {
    match t
    case Start => st
    case Then(before, step) => Eliminate(Run(st, before, x), step, x)
  }

  /** Some visit of `t` looks at cell (r, c). */
  predicate Visits(t: Trail, r: int, c: int)
  {
    match t
    case Start => false
    case Then(before, step) => Visits(before, r, c) || (step.r == r && step.c == c)
  }

  /** Some visit of `t` would put `p` on the queue. */
  predicate MayPut(t: Trail, p: (int, int))
  {
    match t
    case Start => false
    case Then(before, step) => MayPut(before, p) || step.put == p
  }

  /** No cell is visited twice by `t`. */
  predicate Unrepeated(t: Trail)
  {
    match t
    case Start => true
    case Then(before, step) => Unrepeated(before) && !Visits(before, step.r, step.c)
  }

  /** Running `a` then `b` is running `Append(a, b)`. */
  lemma {:induction false} Concat(st: State, a: Trail, b: Trail, x: Option<int>)
    ensures Run(st, Append(a, b), x) == Run(Run(st, a, x), b, x)
  {
    if b.Then? {
      Concat(st, a, b.before, x);
    }
  }

  /** `Append(a, b)` visits, and may put, what `a` or `b` does. */
  lemma {:induction false} ConcatVisits(a: Trail, b: Trail, r: int, c: int, p: (int, int))
    ensures Visits(Append(a, b), r, c) <==> Visits(a, r, c) || Visits(b, r, c)
    ensures MayPut(Append(a, b), p) <==> MayPut(a, p) || MayPut(b, p)
  {
    if b.Then? {
      ConcatVisits(a, b.before, r, c, p);
    }
  }

  /** Two visit lists without repeats, over disjoint cells, make one without repeats. */
  lemma {:induction false} ConcatUnrepeated(a: Trail, b: Trail)
    requires Unrepeated(a) && Unrepeated(b)
    requires forall r, c :: Visits(b, r, c) ==> !Visits(a, r, c)
    ensures Unrepeated(Append(a, b))
  {
    if b.Then? {
      var before, step := b.before, b.step;
      forall r, c | Visits(before, r, c) ensures Visits(b, r, c) { }
      ConcatUnrepeated(a, before);
      ConcatVisits(a, before, step.r, step.c, (0, 0));
    }
  }

  /** Visits without repeats remove `x` exactly from the unresolved cells they
      visit, each once, and keep the grid's shape. */
  lemma {:induction false} RunAt(st: State, t: Trail, x: Option<int>, r: int, c: int)
    requires IsGrid(st.grid, |st.grid|) && Unrepeated(t)
    requires 0 <= r < |st.grid| && 0 <= c < |st.grid|
    ensures IsGrid(Run(st, t, x).grid, |st.grid|)
    ensures Run(st, t, x).grid[r][c] == Visit(st.grid[r][c], Visits(t, r, c), x)
  {
    if t.Then? {
      var before, step := t.before, t.step;
      RunAt(st, before, x, r, c);
      if 0 <= step.r < |st.grid| && 0 <= step.c < |st.grid| {
        RunAt(st, before, x, step.r, step.c);
      }
    }
  }

  /** Visits keep the grid's shape and well-formedness, and every cell they
      resolve is matched by one put: the unresolved cells and the queue
      together keep their size. */
  lemma {:induction false} RunKeeps(st: State, t: Trail, x: Option<int>)
    requires IsGrid(st.grid, |st.grid|) && AllWellFormed(st.grid)
    ensures IsGrid(Run(st, t, x).grid, |st.grid|) && AllWellFormed(Run(st, t, x).grid)
    ensures |UnresolvedOf(Run(st, t, x).grid)| + |Run(st, t, x).queue| == |UnresolvedOf(st.grid)| + |st.queue|
  {
    if t.Then? {
      var before, step := t.before, t.step;
      RunKeeps(st, before, x);
      var mid := Run(st, before, x);
      if 0 <= step.r < |mid.grid| && 0 <= step.c < |mid.grid[step.r]| {
        EliminatedKeepsInvariant(mid.grid, step.r, step.c, x);
      }
    }
  }

  /** Visits only append to the queue, whatever it held before, and what they
      append are puts of theirs. */
  lemma {:induction false} RunQueue(st: State, t: Trail, x: Option<int>)
    ensures Run(st, t, x).grid == Run(State(st.grid, []), t, x).grid
    ensures Run(st, t, x).queue == st.queue + Run(State(st.grid, []), t, x).queue
    ensures forall p :: p in Run(State(st.grid, []), t, x).queue ==> MayPut(t, p)
  {
    if t.Then? {
      var before, step := t.before, t.step;
      RunQueue(st, before, x);
      var bare := Run(State(st.grid, []), before, x);
      var extra := if Collapses(bare.grid, step.r, step.c, x) then [step.put] else [];
      assert st.queue + bare.queue + extra == st.queue + (bare.queue + extra);
    }
  }

  /** Visits keep the grid's shape. */
  lemma {:induction false} RunShape(st: State, t: Trail, x: Option<int>)
    requires IsGrid(st.grid, |st.grid|)
    ensures IsGrid(Run(st, t, x).grid, |st.grid|)
  {
    if t.Then? {
      RunShape(st, t.before, x);
    }
  }

  /** What the visits of `t` put, in order, judged on the grid `s` they start
      from: the put of every visit whose cell `remove_possible(x)` resolves in
      `s`. */
  function Gathered(s: Grid, t: Trail, x: Option<int>): seq<(int, int)>
  {
    match t
    case Start => []
    case Then(before, step) => Gathered(s, before, x) + Put(s, step.r, step.c, x, step.put)
  }

  /** `[p]` when `remove_possible(x)` resolves cell (r, c) of `s`, else nothing. */
  function Put(s: Grid, r: int, c: int, x: Option<int>, p: (int, int)): seq<(int, int)>
  {
    if Collapses(s, r, c, x) then [p] else []
  }

  /** The cells of `s` that the visits of `t` look at and that `remove_possible(x)`
      resolves there. */
  function Resolvable(s: Grid, t: Trail, x: Option<int>): set<(int, int)>
  {
    set r, c | 0 <= r < |s| && 0 <= c < |s[r]| && Visits(t, r, c) && Collapses(s, r, c, x) :: (r, c)
  }

  /** Visits without repeats each find their cell as it was at the start, so
      they append to the queue exactly what `Gathered` lists. */
  lemma {:induction false} RunGathers(st: State, t: Trail, x: Option<int>)
    requires IsGrid(st.grid, |st.grid|) && Unrepeated(t)
    ensures Run(st, t, x).queue == st.queue + Gathered(st.grid, t, x)
  {
    if t.Then? {
      var before, step := t.before, t.step;
      RunGathers(st, before, x);
      RunShape(st, before, x);
      var mid := Run(st, before, x);
      if 0 <= step.r < |st.grid| && 0 <= step.c < |st.grid| {
        RunAt(st, before, x, step.r, step.c);
      }
      assert Collapses(mid.grid, step.r, step.c, x) == Collapses(st.grid, step.r, step.c, x);
      var extra := Put(st.grid, step.r, step.c, x, step.put);
      assert st.queue + Gathered(st.grid, before, x) + extra == st.queue + (Gathered(st.grid, before, x) + extra);
    }
  }

  /** The puts of `Append(a, b)` are those of `a` followed by those of `b`. */
  lemma {:induction false} GatheredConcat(s: Grid, a: Trail, b: Trail, x: Option<int>)
    ensures Gathered(s, Append(a, b), x) == Gathered(s, a, x) + Gathered(s, b, x)
  {
    if b.Then? {
      GatheredConcat(s, a, b.before, x);
      var extra := Put(s, b.step.r, b.step.c, x, b.step.put);
      assert Gathered(s, a, x) + Gathered(s, b.before, x) + extra == Gathered(s, a, x) + (Gathered(s, b.before, x) + extra);
    }
  }

  /** Visits without repeats put one coordinate per cell they resolve, and
      only coordinates some visit of theirs may put. */
  lemma {:induction false} GatheredCount(s: Grid, t: Trail, x: Option<int>)
    requires Unrepeated(t)
    ensures |Gathered(s, t, x)| == |Resolvable(s, t, x)|
    ensures forall p :: p in Gathered(s, t, x) ==> MayPut(t, p)
  {
    if t.Then? {
      var before, step := t.before, t.step;
      GatheredCount(s, before, x);
      var at := (step.r, step.c);
      assert at !in Resolvable(s, before, x);
      if Collapses(s, step.r, step.c, x) {
        assert Resolvable(s, t, x) == Resolvable(s, before, x) + {at};
      } else {
        assert Resolvable(s, t, x) == Resolvable(s, before, x);
      }
    }
  }
}
