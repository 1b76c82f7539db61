/**
 * OrgWorld as written (World.h): one tick is a feeding pass and a
 * reproduction-and-movement pass, each over a permutation of all cell indices.
 * The permutations and every neighbour draw are inputs; a neighbour draw may be
 * any index of the grid, the visited cell itself included.
 *
 * The death check at the end of MoveOrganism reads the occupant of the cell the
 * mover started from. Whenever the mover has left that cell, the read finds it
 * empty; the model returns EmptyCellRead with the grid as it stood at that read
 * instead of making something up for the dereference.
 */
module World {

  import opened Slots
  import opened Organism
  import opened Grid
  import Dispatch
  import PredatorRules

  /** The bonus a Prey is fed in the first pass, on top of the base intake. */
  const GrazeBonus: real := 10.0
  /** The bonus a Predator is fed when MoveOrganism lets it eat a Prey. */
  const PredationBonus: real := 1.5

  /** How a call ends: normally, or at a read of an empty cell (grid as at that read). */
  datatype Outcome = Done(grid: Grid) | EmptyCellRead(grid: Grid)

  /** The neighbour draws of one visit: where an offspring goes, and where the mover looks. */
  datatype Draw = Draw(birth: nat, move: nat)

  predicate InRange(s: seq<nat>, n: nat)
  {
    forall k :: 0 <= k < |s| ==> s[k] < n
  }

  predicate Distinct(s: seq<nat>)
  {
    forall a, b :: 0 <= a < b < |s| ==> s[a] != s[b]
  }

  /** What the library's permutation generator returns: every index once, nothing else. */
  predicate IsPermutation(s: seq<nat>, n: nat)
  {
    && |s| == n
    && InRange(s, n)
    && Distinct(s)
    && forall c :: 0 <= c < n ==> c in s
  }

  predicate DrawsInRange(draws: seq<Draw>, n: nat)
  {
    forall k :: 0 <= k < |draws| ==> draws[k].birth < n && draws[k].move < n
  }

  // ---------------------------------------------------------------- first pass

  /** The intended effect of feeding on one cell: a Prey is 20 richer, anything else is untouched. */
  function Fed(c: Cell): Cell
  {
    if c.Some? && c.value.kind == Prey then Some(Org(Prey, c.value.energy + 20.0)) else c
  }

  /** Every cell fed at once: the grid a feeding pass over a permutation must produce. */
  function FedAll(g: Grid): (r: Grid)
    ensures |r| == |g|
    ensures forall c :: 0 <= c < |g| ==> r[c] == Fed(g[c])
  {
    seq(|g|, c requires 0 <= c < |g| => Fed(g[c]))
  }

  /** One step of the first pass: skip an empty cell, feed a Prey, leave a Predator. */
  function FeedCell(g: Grid, idx: nat): (r: Grid)
    requires idx < |g|
    ensures |r| == |g|
    ensures r[idx] == Fed(g[idx])
    ensures SameExcept(g, r, idx, idx)
  {
    if g[idx].None? then g
    else if GetType(g[idx].value) == 1 then g[idx := Some(ConsumeEnergy(g[idx].value, GrazeBonus))]
    else g
  }

  /**
   * The first pass over schedule s. Whatever the schedule, it keeps every cell's
   * occupancy and kind, never lowers an energy and never touches a Predator.
   */
  function FeedPass(g: Grid, s: seq<nat>): (r: Grid)
    requires InRange(s, |g|)
    ensures |r| == |g|
    ensures forall c :: 0 <= c < |g| ==> (r[c].Some? <==> g[c].Some?)
    ensures forall c :: 0 <= c < |g| && g[c].Some? ==>
              r[c].value.kind == g[c].value.kind && r[c].value.energy >= g[c].value.energy
    ensures forall c :: 0 <= c < |g| && g[c].Some? && g[c].value.kind == Predator ==> r[c] == g[c]
    decreases |s|
  {
    if |s| == 0 then g else FeedPass(FeedCell(g, s[0]), s[1..])
  }

  /** With no index repeated, the first pass feeds exactly the scheduled cells, each once. */
  lemma {:induction false} FeedPassOnce(g: Grid, s: seq<nat>)
    requires InRange(s, |g|) && Distinct(s)
    ensures forall c :: 0 <= c < |g| ==> FeedPass(g, s)[c] == (if c in s then Fed(g[c]) else g[c])
    decreases |s|
  {
    if |s| > 0 {
      var h := FeedCell(g, s[0]);
      FeedPassOnce(h, s[1..]);
      forall c | 0 <= c < |g|
        ensures FeedPass(g, s)[c] == (if c in s then Fed(g[c]) else g[c])
      {
        assert c in s <==> c == s[0] || c in s[1..];
        if c == s[0] {
          assert c !in s[1..];
        }
      }
    }
  }

  /**
   * Over a permutation the first pass feeds every Prey exactly once (+20, from
   * ConsumeEnergy(10)) and leaves every Predator and the occupancy as they were.
   */
  lemma FeedPassFeedsEveryPrey(g: Grid, s: seq<nat>)
    requires IsPermutation(s, |g|)
    ensures forall c :: 0 <= c < |g| ==> FeedPass(g, s)[c] == Fed(g[c])
    ensures Occupancy(FeedPass(g, s)) == Occupancy(g)
  {
    FeedPassOnce(g, s);
    OccupancySameShape(g, FeedPass(g, s));
  }

  // --------------------------------------------------------------- second pass

  /**
   * The reproduction step of a visit: the occupant of idx tries to reproduce; an
   * offspring is written to birth, over whatever is there (the parent included
   * when birth is idx itself).
   */
  function Reproduce(g: Grid, idx: nat, birth: nat): (r: Grid)
    requires idx < |g| && birth < |g| && g[idx].Some?
    ensures |r| == |g|
    ensures r[idx].Some?
    ensures GetEnergy(g[idx].value) <= Dispatch.ReproduceThreshold(g[idx].value.kind) ==> r == g
    ensures GetEnergy(g[idx].value) > Dispatch.ReproduceThreshold(g[idx].value.kind) ==>
              && r[birth] == Some(Org(g[idx].value.kind, 0.0))
              && (birth != idx ==>
                    r[idx] == Some(Org(g[idx].value.kind,
                                       GetEnergy(g[idx].value) - Dispatch.ReproduceCost(g[idx].value.kind))))
              && SameExcept(g, r, idx, birth)
    ensures Occupancy(r) <= Occupancy(g) + 1
  {
    var b := Dispatch.TryReproduce(g[idx].value);
    var kept := g[idx := Some(b.parent)];
    OccupancyOverwrite(g, idx, b.parent);
    if b.offspring.Some? then AddOrgAt(kept, birth, b.offspring.value) else kept
  }

  /**
   * The death check at the end of MoveOrganism: it reads the occupant of i, which
   * must be there, and removes it only if it is a Predator out of energy.
   */
  function DeathCheck(g: Grid, i: nat): (r: Outcome)
    requires i < |g|
    ensures r.EmptyCellRead? <==> g[i].None?
    ensures r.EmptyCellRead? ==> r.grid == g
    ensures r.Done? ==>
              && SameExcept(g, r.grid, i, i)
              && (r.grid[i].None? <==> g[i].value.kind == Predator && GetEnergy(g[i].value) <= 0.0)
              && (r.grid[i].Some? ==> r.grid[i] == g[i])
              && Occupancy(r.grid) <= Occupancy(g)
  {
    if g[i].None? then EmptyCellRead(g)
    else if GetType(g[i].value) == 0 && PredatorRules.ShouldDie(g[i].value) then Done(RemoveOrgAt(g, i))
    else Done(g)
  }

  /**
   * The occupied-target case of MoveOrganism, for organisms of different kinds. The
   * second test re-reads cell j after the first branch may already have moved the
   * Predator there, so both branches can run: a Predator at i eats twice and is
   * moved back to i; a Predator at j eats once and moves into i. Either way the
   * Prey is gone, the Predator is at i and j is empty.
   */
  function Predation(g: Grid, i: nat, j: nat): (r: Grid)
    requires i < |g| && j < |g| && g[i].Some? && g[j].Some?
    requires g[i].value.kind != g[j].value.kind
    ensures |r| == |g|
    ensures SameExcept(g, r, i, j)
    ensures r[j].None? && r[i].Some? && r[i].value.kind == Predator
    ensures g[i].value.kind == Predator ==> GetEnergy(r[i].value) == GetEnergy(g[i].value) + 23.0
    ensures g[i].value.kind == Prey ==> GetEnergy(r[i].value) == GetEnergy(g[j].value) + 11.5
    ensures Occupancy(r) == Occupancy(g) - 1
  {
    var first :=
      if GetType(g[i].value) == 0 then
        OccupancyOverwrite(g, i, ConsumeEnergy(g[i].value, PredationBonus));
        ReplaceOrganism(g[i := Some(ConsumeEnergy(g[i].value, PredationBonus))], i, j)
      else g;
    if GetType(first[j].value) == 0 then
      OccupancyOverwrite(first, j, ConsumeEnergy(first[j].value, PredationBonus));
      ReplaceOrganism(first[j := Some(ConsumeEnergy(first[j].value, PredationBonus))], j, i)
    else first
  }

  /**
   * OrgWorld::MoveOrganism with neighbour draw j. The death check at the end faults
   * (reads an empty cell) exactly when the mover has relocated: an empty target, or
   * a target of the other kind. Against the same kind nothing moves and no energy
   * changes; only the death check acts.
   */
  function MoveOrganism(g: Grid, i: nat, j: nat): (r: Outcome)
    requires i < |g| && j < |g| && g[i].Some?
    ensures |r.grid| == |g|
    ensures r.EmptyCellRead? <==> g[j].None? || g[j].value.kind != g[i].value.kind
    ensures g[j].Some? && g[j].value.kind == g[i].value.kind ==> r == DeathCheck(g, i)
    ensures g[j].None? ==> r.grid[j] == g[i] && r.grid[i] == None && SameExcept(g, r.grid, i, j)
    ensures r.Done? ==> Occupancy(r.grid) <= Occupancy(g)
  {
    var afterMeeting :=
      if g[j].Some? && GetType(g[i].value) != GetType(g[j].value) then Predation(g, i, j) else g;
    var afterStep :=
      if afterMeeting[j].None? then AddOrgAt(afterMeeting[i := None], j, afterMeeting[i].value)
      else afterMeeting;
    DeathCheck(afterStep, i)
  }

  /**
   * A Predator at i meeting a Prey at j: the first branch feeds it and moves it to j,
   * the re-read of j then feeds it again and moves it back to i, and the empty-target
   * step moves it to j once more. It gains 23, not the single 11.5 the code's comment
   * describes, and the death check then reads the emptied cell i.
   */
  lemma PredatorFeedsTwice(g: Grid, i: nat, j: nat)
    requires i < |g| && j < |g| && g[i].Some? && g[j].Some?
    requires g[i].value.kind == Predator && g[j].value.kind == Prey
    ensures MoveOrganism(g, i, j)
            == EmptyCellRead(g[i := None][j := Some(Org(Predator, GetEnergy(g[i].value) + 23.0))])
    ensures GetEnergy(MoveOrganism(g, i, j).grid[j].value) != GetEnergy(g[i].value) + 11.5
  {
  }

  /**
   * A Prey at i next to a Predator at j: the Predator is fed 11.5 and moved into the
   * Prey's cell, and the empty-target step then moves it straight back to j. The
   * Prey is gone, the Predator ends where it started, and the death check then
   * reads the emptied cell i.
   */
  lemma PredatorReturnsToTarget(g: Grid, i: nat, j: nat)
    requires i < |g| && j < |g| && g[i].Some? && g[j].Some?
    requires g[i].value.kind == Prey && g[j].value.kind == Predator
    ensures MoveOrganism(g, i, j)
            == EmptyCellRead(g[i := None][j := Some(Org(Predator, GetEnergy(g[j].value) + 11.5))])
  {
  }

  /**
   * One visit of the second pass: an empty cell is skipped; otherwise reproduction
   * comes first and the movement step works on the grid it leaves.
   */
  function Visit(g: Grid, idx: nat, d: Draw): (r: Outcome)
    requires idx < |g| && d.birth < |g| && d.move < |g|
    ensures |r.grid| == |g|
    ensures g[idx].None? ==> r == Done(g)
    ensures r.Done? ==> Occupancy(r.grid) <= Occupancy(g) + 1
  {
    if g[idx].None? then Done(g)
    else MoveOrganism(Reproduce(g, idx, d.birth), idx, d.move)
  }

  /**
   * Reproduction comes before movement: an offspring born in the very cell the
   * parent then looks at is of the parent's kind, so the parent stays put, having
   * paid for the birth, and the tick goes on.
   */
  lemma OffspringBlocksMove(g: Grid, idx: nat, d: Draw)
    requires idx < |g| && d.birth < |g| && d.move < |g| && g[idx].Some?
    requires GetEnergy(g[idx].value) > Dispatch.ReproduceThreshold(g[idx].value.kind)
    requires d.birth == d.move && d.birth != idx
    ensures var o := g[idx].value;
            var r := Visit(g, idx, d);
            && r.Done?
            && r.grid[idx] == Some(Org(o.kind, GetEnergy(o) - Dispatch.ReproduceCost(o.kind)))
            && r.grid[d.birth] == Some(Org(o.kind, 0.0))
            && SameExcept(g, r.grid, idx, d.birth)
  {
  }

  /** The second pass over schedule s with one draw per visit; it stops at the first fault. */
  function SecondPass(g: Grid, s: seq<nat>, draws: seq<Draw>): (r: Outcome)
    requires |draws| == |s| && InRange(s, |g|) && DrawsInRange(draws, |g|)
    ensures |r.grid| == |g|
    ensures r.Done? ==> Occupancy(r.grid) <= Occupancy(g) + |s|
    decreases |s|
  {
    if |s| == 0 then Done(g)
    else
      match Visit(g, s[0], draws[0])
      case EmptyCellRead(h) => EmptyCellRead(h)
      case Done(h) => SecondPass(h, s[1..], draws[1..])
  }

  /** A second pass that only visits empty cells changes nothing. */
  lemma {:induction false} EmptyVisitsSkipped(g: Grid, s: seq<nat>, draws: seq<Draw>)
    requires |draws| == |s| && InRange(s, |g|) && DrawsInRange(draws, |g|)
    requires forall k :: 0 <= k < |s| ==> g[s[k]].None?
    ensures SecondPass(g, s, draws) == Done(g)
    decreases |s|
  {
    if |s| > 0 {
      EmptyVisitsSkipped(g, s[1..], draws[1..]);
    }
  }

  /**
   * OrgWorld::Update: the feeding pass over s1, then the reproduction-and-movement
   * pass over s2. Move, InteractAt and the Prey death check are never called. The
   * order of the feeding pass does not matter: every Prey gains 20 once, whatever s1.
   */
  function Update(g: Grid, s1: seq<nat>, s2: seq<nat>, draws: seq<Draw>): (r: Outcome)
    requires IsPermutation(s1, |g|) && IsPermutation(s2, |g|)
    requires |draws| == |g| && DrawsInRange(draws, |g|)
    ensures |r.grid| == |g|
    ensures r.Done? ==> Occupancy(r.grid) <= Occupancy(g) + |g|
    ensures r == SecondPass(FedAll(g), s2, draws)
  {
    var fed := FeedPass(g, s1);
    FeedPassFeedsEveryPrey(g, s1);
    assert fed == FedAll(g);
    SecondPass(fed, s2, draws)
  }
}
