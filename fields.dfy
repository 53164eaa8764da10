/** One cell of the grid (the source's class `Field`): the list of values it may
    still take and the value it has been resolved to, if any. */
module Fields {
  import opened Wrappers

  /** The candidate list of a fresh cell: always 1..9, whatever the grid's dimension. */
  const InitialCandidates: seq<int> := [1, 2, 3, 4, 5, 6, 7, 8, 9]

  /** No value occurs twice in `s`. */
  predicate Distinct(s: seq<int>) {
    forall i, j :: 0 <= i < j < |s| ==> s[i] != s[j]
  }

  /** The position of the first occurrence of `x` in `s`. */
  function IndexOf(s: seq<int>, x: int): (i: nat)
    requires x in s
    ensures i < |s| && s[i] == x && x !in s[..i]
  {
    if s[0] == x then 0
    else
      var k := IndexOf(s[1..], x);
      TailSlices(s, k);
      k + 1
  }

  /** `s` with the first occurrence of `x` taken out (Python's `list.remove`),
      or `s` itself when `x` does not occur in it. */
  function Without(s: seq<int>, x: int): (r: seq<int>)
    ensures x in s ==> |r| == |s| - 1
    ensures x !in s ==> r == s
  {
    if x in s then s[..IndexOf(s, x)] + s[IndexOf(s, x) + 1..] else s
  }

  /** Removing a present value takes exactly one copy of it out of the list. */
  lemma WithoutMultiset(s: seq<int>, x: int)
    requires x in s
    ensures multiset(Without(s, x)) + multiset{x} == multiset(s)
  {
    var i := IndexOf(s, x);
    assert s == s[..i] + [x] + s[i + 1..];
  }

  /** Slices of `s` seen through its tail `s[1..]`. */
  lemma TailSlices(s: seq<int>, k: nat)
    requires k + 1 < |s|
    ensures s[..k + 1] == [s[0]] + s[1..][..k]
    ensures s[k + 2..] == s[1..][k + 1..]
  {
  }

  /** Taking a value out of a duplicate-free list leaves it duplicate-free and
      without that value. */
  lemma {:induction false} WithoutDistinct(s: seq<int>, x: int)
    requires Distinct(s)
    ensures Distinct(Without(s, x))
    ensures x !in Without(s, x)
  {
    if x in s {
      var i := IndexOf(s, x);
      var r := Without(s, x);
      assert forall k :: 0 <= k < |r| ==> r[k] == s[if k < i then k else k + 1];
      forall a, b | 0 <= a < b < |r| ensures r[a] != r[b] {
        assert r[a] == s[if a < i then a else a + 1];
        assert r[b] == s[if b < i then b else b + 1];
      }
    }
  }

  /** The observable state of a `Field`: its candidate list and its value. */
  datatype Cell = Cell(possible: seq<int>, value: Option<int>)

  /** A cell as `Field()` creates it: every candidate, no value. */
  const Blank := Cell(InitialCandidates, None)

  /** What the solver keeps true of every cell: a resolved cell lists only its
      value, an unresolved one still lists at least two candidates, and no
      candidate is listed twice. */
  predicate WellFormed(c: Cell) {
    Distinct(c.possible) &&
    (c.value.Some? ==> c.possible == [c.value.value]) &&
    (c.value.None? ==> |c.possible| >= 2)
  }

  /** A cell whose value was just assigned by the `value` setter. */
  function Assigned(v: int): (c: Cell)
    ensures WellFormed(c) && c.value == Some(v)
  {
    Cell([v], Some(v))
  }

  /** `x` is a candidate of `c`; `None` never is. */
  predicate Present(c: Cell, x: Option<int>) {
    x.Some? && x.value in c.possible
  }

  /** Whether `remove_possible(x)` reports `True`: `x` is a candidate, and
      taking out one copy of it, as `list.remove` does, leaves exactly one. */
  predicate Resolves(c: Cell, x: Option<int>) {
    Present(c, x) && |c.possible| - 1 == 1
  }

  /** The cell after `remove_possible(x)`: `x` leaves the candidates, and the cell
      takes the remaining candidate as its value when exactly one is left. */
  function Remove(c: Cell, x: Option<int>): (r: Cell)
    ensures Resolves(c, x) ==> |r.possible| == 1 && r.value == Some(r.possible[0])
    ensures !Present(c, x) ==> r == c
    ensures multiset(r.possible) <= multiset(c.possible)
    ensures WellFormed(c) && c.value.Some? ==> r.value == c.value
  {
    if Present(c, x) then
      WithoutMultiset(c.possible, x.value);
      var p := Without(c.possible, x.value);
      if |p| == 1 then Assigned(p[0]) else Cell(p, c.value)
    else c
  }

  /** `remove_possible` on an unresolved, well-formed cell (the only kind the solver
      calls it on): the cell stays well-formed, loses `x` and keeps the order of
      its other candidates, and it gets a value exactly when `remove_possible`
      returns `True`, that value being the one candidate left. */
  lemma RemoveFromUnresolved(c: Cell, x: Option<int>)
    requires WellFormed(c) && c.value.None?
    ensures WellFormed(Remove(c, x))
    ensures x.Some? ==> x.value !in Remove(c, x).possible
    ensures Present(c, x) ==>
      Remove(c, x).possible == c.possible[..IndexOf(c.possible, x.value)] + c.possible[IndexOf(c.possible, x.value) + 1..]
    ensures Remove(c, x).value.Some? <==> Resolves(c, x)
    ensures Resolves(c, x) ==> Remove(c, x).possible == [Remove(c, x).value.value]
  {
    if x.Some? {
      WithoutDistinct(c.possible, x.value);
    }
  }

  /** A grid cell (the source's `Field`), updated in place. */
  class Field {
    var possible: seq<int>
    var value: Option<int>

    /** The cell's current state as a value. */
    function Model(): Cell
      reads this
    {
      Cell(possible, value)
    }

    /** `Field(value)`: every candidate, then the `value` setter applied to `v`. */
    constructor (v: Option<int>)
      ensures Model() == if v.Some? then Assigned(v.value) else Blank
    {
      possible := InitialCandidates;
      value := None;
      new;
      SetValue(v);
    }

    /** The `value` setter: a value collapses the candidates to that value alone;
        `None` leaves them as they are. */
    method SetValue(v: Option<int>)
      modifies this
      ensures value == v
      ensures possible == if v.Some? then [v.value] else old(possible)
    {
      value := v;
      if v.Some? {
        possible := [v.value];
      }
    }

    /** `remove_possible(x)`: removes `x` from the candidates when present and
        reports whether that left a single candidate, which becomes the value. */
    method RemovePossible(x: Option<int>) returns (result: bool)
      modifies this
      ensures Model() == Remove(old(Model()), x)
      ensures result == Resolves(old(Model()), x)
    {
      result := false;
      if x.Some? && x.value in possible {
        possible := Without(possible, x.value);
        if |possible| == 1 {
          SetValue(Some(possible[0]));
          result := true;
        }
      }
    }
  }
}
