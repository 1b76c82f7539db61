/**
 * The cell store the simulation runs on: a fixed-size sequence of cells, each
 * empty or holding one organism by value. AddOrgAt and RemoveOrgAt stand for the
 * population library's primitives; ReplaceOrganism is OrgWorld's own (World.h).
 */
module Grid {

  import opened Slots
  import opened Organism

  type Cell = Slot<Org>
  type Grid = seq<Cell>

  function Occupied(c: Cell): nat
  {
    if c.Some? then 1 else 0
  }

  /** The number of occupied cells. */
  function Occupancy(g: Grid): nat
    decreases |g|
  {
    if |g| == 0 then 0 else Occupied(g[0]) + Occupancy(g[1..])
  }

  /** Two grids of the same size that agree on every cell except a and b. */
  predicate SameExcept(g: Grid, r: Grid, a: nat, b: nat)
  {
    |r| == |g| && forall k :: 0 <= k < |g| && k != a && k != b ==> r[k] == g[k]
  }

  /** Writing one cell changes the count by what that cell gains or loses, and nothing else. */
  lemma {:induction false} OccupancyUpdate(g: Grid, i: nat, c: Cell)
    requires i < |g|
    ensures Occupancy(g[i := c]) + Occupied(g[i]) == Occupancy(g) + Occupied(c)
    decreases |g|
  {
    if i == 0 {
      assert g[i := c][1..] == g[1..];
    } else {
      assert g[i := c][1..] == g[1..][i - 1 := c];
      OccupancyUpdate(g[1..], i - 1, c);
    }
  }

  /** Population bound: there are never more organisms than cells. */
  lemma {:induction false} OccupancyBound(g: Grid)
    ensures Occupancy(g) <= |g|
    decreases |g|
  {
    if |g| > 0 {
      OccupancyBound(g[1..]);
    }
  }

  /** Grids occupied in exactly the same cells hold the same number of organisms. */
  lemma {:induction false} OccupancySameShape(g: Grid, r: Grid)
    requires |r| == |g|
    requires forall k :: 0 <= k < |g| ==> (r[k].Some? <==> g[k].Some?)
    ensures Occupancy(r) == Occupancy(g)
    decreases |g|
  {
    if |g| > 0 {
      OccupancySameShape(g[1..], r[1..]);
    }
  }

  /** Overwriting an occupied cell with another organism keeps the occupied count. */
  lemma OccupancyOverwrite(g: Grid, i: nat, o: Org)
    requires i < |g| && g[i].Some?
    ensures Occupancy(g[i := Some(o)]) == Occupancy(g)
  {
    OccupancyUpdate(g, i, Some(o));
  }

  /**
   * Place o at pos. What the library does with an occupant already at pos is not
   * visible; it is modelled as an overwrite that discards the old occupant.
   */
  function AddOrgAt(g: Grid, pos: nat, o: Org): (r: Grid)
    requires pos < |g|
    ensures |r| == |g|
    ensures r[pos] == Some(o)
    ensures SameExcept(g, r, pos, pos)
    ensures Occupancy(r) == Occupancy(g) + 1 - Occupied(g[pos])
  {
    OccupancyUpdate(g, pos, Some(o));
    g[pos := Some(o)]
  }

  /** Free the cell at pos, releasing its occupant if there is one. */
  function RemoveOrgAt(g: Grid, pos: nat): (r: Grid)
    requires pos < |g|
    ensures |r| == |g|
    ensures r[pos] == None
    ensures SameExcept(g, r, pos, pos)
    ensures Occupancy(r) == Occupancy(g) - Occupied(g[pos])
  {
    OccupancyUpdate(g, pos, None);
    g[pos := None]
  }

  /** Moving o into to while clearing from loses both former occupants and gains o. */
  lemma MoveCount(g: Grid, from: nat, to: nat, o: Org)
    requires from < |g| && to < |g| && from != to
    ensures Occupancy(g[from := None][to := Some(o)]) + Occupied(g[from]) + Occupied(g[to])
            == Occupancy(g) + 1
  {
    OccupancyUpdate(g, from, None);
    OccupancyUpdate(g[from := None], to, Some(o));
  }

  /**
   * OrgWorld::ReplaceOrganism: take the occupant of from, clear from, evict the
   * occupant of to, and put the taken organism at to. Only the former occupant of
   * to is lost, so the occupied count never grows.
   */
  function ReplaceOrganism(g: Grid, from: nat, to: nat): (r: Grid)
    requires from < |g| && to < |g| && g[from].Some?
    ensures r == g[from := None][to := g[from]]
    ensures |r| == |g|
    ensures r[to] == g[from]
    ensures from != to ==> r[from] == None
    ensures SameExcept(g, r, from, to)
    ensures from == to ==> r == g
    ensures Occupancy(r) == Occupancy(g) - (if from != to then Occupied(g[to]) else 0)
  {
    var org := g[from].value;
    var r := AddOrgAt(RemoveOrgAt(g[from := None], to), to, org);
    assert r == g[from := None][to := g[from]];
    if from != to then
      MoveCount(g, from, to, org);
      r
    else
      assert r == g;
      r
  }
}
