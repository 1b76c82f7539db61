/**
 * MoveOrganism and the tick as the comments in World.h describe them. Three
 * changes: the re-read of the target after a Predator has eaten is an else-branch,
 * the empty-target step only runs when the target was empty to begin with, and the
 * death check looks at the cell the mover ended in. Everything else is World's.
 */
module CorrectedWorld {

  import opened Slots
  import opened Organism
  import opened Grid
  import World

  /** A cell as the death check leaves it: a Predator out of energy goes, anything else stays. */
  function Survivor(c: Cell): Cell
  {
    if c.Some? && c.value.kind == Predator && c.value.energy <= 0.0 then None else c
  }

  /** The death check applied at the cell where the mover ended up, which is occupied. */
  function Settle(g: Grid, pos: nat): (r: Grid)
    requires pos < |g| && g[pos].Some?
    ensures r == g[pos := Survivor(g[pos])]
    ensures Occupancy(r) <= Occupancy(g)
  {
    World.DeathCheck(g, pos).grid
  }

  /**
   * MoveOrganism without the faults: a Predator eats a Prey once (+11.5) and ends in
   * the Prey's cell, whichever of the two was visited; a move into an empty cell
   * moves; a same-kind target leaves the mover in place. Then a Predator left
   * without energy is removed from where it stands.
   */
  function MoveOrganism(g: Grid, i: nat, j: nat): (r: Grid)
    requires i < |g| && j < |g| && g[i].Some?
    ensures |r| == |g|
    ensures Occupancy(r) <= Occupancy(g)
    ensures g[j].None? ==> r == g[i := None][j := Survivor(g[i])]
    ensures g[j].Some? && g[j].value.kind == g[i].value.kind ==> r == g[i := Survivor(g[i])]
    ensures g[j].Some? && g[i].value.kind == Predator && g[j].value.kind == Prey ==>
              r == g[i := None][j := Survivor(Some(Org(Predator, GetEnergy(g[i].value) + 11.5)))]
    ensures g[j].Some? && g[i].value.kind == Prey && g[j].value.kind == Predator ==>
              r == g[j := None][i := Survivor(Some(Org(Predator, GetEnergy(g[j].value) + 11.5)))]
  {
    var o := g[i].value;
    if g[j].Some? && GetType(o) != GetType(g[j].value) then
      if GetType(o) == 0 then
        var fed := ConsumeEnergy(o, World.PredationBonus);
        OccupancyOverwrite(g, i, fed);
        var moved := ReplaceOrganism(g[i := Some(fed)], i, j);
        assert moved == g[i := None][j := Some(fed)];
        assert fed == Org(Predator, GetEnergy(o) + 11.5);
        var r := Settle(moved, j);
        assert r == g[i := None][j := Survivor(Some(fed))];
        r
      else
        var fed := ConsumeEnergy(g[j].value, World.PredationBonus);
        OccupancyOverwrite(g, j, fed);
        var moved := ReplaceOrganism(g[j := Some(fed)], j, i);
        assert moved == g[j := None][i := Some(fed)];
        assert fed == Org(Predator, GetEnergy(g[j].value) + 11.5);
        var r := Settle(moved, i);
        assert r == g[j := None][i := Survivor(Some(fed))];
        r
    else if g[j].None? then
      Settle(ReplaceOrganism(g, i, j), j)
    else
      Settle(g, i)
  }

  /** The cell the surviving party of a move stands in afterwards. */
  function Destination(g: Grid, i: nat, j: nat): nat
    requires i < |g| && j < |g| && g[i].Some?
  {
    if g[j].None? || (g[i].value.kind == Predator && g[j].value.kind == Prey) then j else i
  }

  /**
   * Death after movement: the cell the move ended in holds no Predator that has run
   * out of energy, and the other cell the move involved is empty or as it was.
   */
  lemma NoStarvedPredatorRemains(g: Grid, i: nat, j: nat)
    requires i < |g| && j < |g| && g[i].Some?
    ensures var r := MoveOrganism(g, i, j);
            var d := Destination(g, i, j);
            && (r[d].Some? && r[d].value.kind == Predator ==> GetEnergy(r[d].value) > 0.0)
            && (i != j ==> var other := if d == i then j else i; r[other].None? || r[other] == g[other])
  {
  }

  /** Where the code as written completes a move, the corrected move does the same. */
  lemma MoveAgrees(g: Grid, i: nat, j: nat)
    requires i < |g| && j < |g| && g[i].Some?
    ensures World.MoveOrganism(g, i, j).Done? ==> MoveOrganism(g, i, j) == World.MoveOrganism(g, i, j).grid
  {
  }

  /**
   * Where the code as written faults after moving into an empty cell, the corrected
   * move ends in the state of that fault, with the death check applied at the target.
   */
  lemma MoveFinishesFault(g: Grid, i: nat, j: nat)
    requires i < |g| && j < |g| && g[i].Some? && g[j].None?
    ensures var h := World.MoveOrganism(g, i, j).grid;
            World.MoveOrganism(g, i, j).EmptyCellRead? && MoveOrganism(g, i, j) == h[j := Survivor(h[j])]
  {
  }

  function Visit(g: Grid, idx: nat, d: World.Draw): (r: Grid)
    requires idx < |g| && d.birth < |g| && d.move < |g|
    ensures |r| == |g|
    ensures g[idx].None? ==> r == g
    ensures Occupancy(r) <= Occupancy(g) + 1
  {
    if g[idx].None? then g
    else MoveOrganism(World.Reproduce(g, idx, d.birth), idx, d.move)
  }

  /** The second pass never faults, and each visit adds at most one organism (a birth). */
  function SecondPass(g: Grid, s: seq<nat>, draws: seq<World.Draw>): (r: Grid)
    requires |draws| == |s| && World.InRange(s, |g|) && World.DrawsInRange(draws, |g|)
    ensures |r| == |g|
    ensures Occupancy(r) <= Occupancy(g) + |s|
    decreases |s|
  {
    if |s| == 0 then g else SecondPass(Visit(g, s[0], draws[0]), s[1..], draws[1..])
  }

  /**
   * The corrected tick: the feeding pass of World, then the corrected second pass.
   * Whatever the feeding order, it is every Prey fed once, then the second pass.
   */
  function Update(g: Grid, s1: seq<nat>, s2: seq<nat>, draws: seq<World.Draw>): (r: Grid)
    requires World.IsPermutation(s1, |g|) && World.IsPermutation(s2, |g|)
    requires |draws| == |g| && World.DrawsInRange(draws, |g|)
    ensures |r| == |g|
    ensures Occupancy(r) <= Occupancy(g) + |g|
    ensures r == SecondPass(World.FedAll(g), s2, draws)
  {
    World.FeedPassFeedsEveryPrey(g, s1);
    assert World.FeedPass(g, s1) == World.FedAll(g);
    SecondPass(World.FeedPass(g, s1), s2, draws)
  }

  /** On a second pass the code as written completes, the corrected pass ends in the same grid. */
  lemma {:induction false} SecondPassAgrees(g: Grid, s: seq<nat>, draws: seq<World.Draw>)
    requires |draws| == |s| && World.InRange(s, |g|) && World.DrawsInRange(draws, |g|)
    ensures World.SecondPass(g, s, draws).Done? ==> SecondPass(g, s, draws) == World.SecondPass(g, s, draws).grid
    decreases |s|
  {
    if |s| > 0 && World.Visit(g, s[0], draws[0]).Done? {
      if g[s[0]].Some? {
        MoveAgrees(World.Reproduce(g, s[0], draws[0].birth), s[0], draws[0].move);
      }
      SecondPassAgrees(World.Visit(g, s[0], draws[0]).grid, s[1..], draws[1..]);
    }
  }

  /** The correction changes only the ticks on which the code as written faults. */
  lemma UpdateAgrees(g: Grid, s1: seq<nat>, s2: seq<nat>, draws: seq<World.Draw>)
    requires World.IsPermutation(s1, |g|) && World.IsPermutation(s2, |g|)
    requires |draws| == |g| && World.DrawsInRange(draws, |g|)
    ensures World.Update(g, s1, s2, draws).Done? ==> Update(g, s1, s2, draws) == World.Update(g, s1, s2, draws).grid
  {
    SecondPassAgrees(World.FeedPass(g, s1), s2, draws);
  }
}
