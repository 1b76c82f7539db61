/**
 * Prey behaviour (Prey.h): reproduction above 20 energy at a cost of 11, a
 * movement cost of 0.2, and death (energy forced to 0) when it runs into a Predator.
 */
module PreyRules {

  import opened Slots
  import opened Organism
  import opened Grid

  const DefaultEnergy: real := 0.0
  const ReproduceThreshold: real := 20.0
  const ReproduceCost: real := 11.0
  const MoveCost: real := 0.2

  /** A Prey acts from cell from: the organism the method is called on sits there. */
  predicate ActsAt(g: Grid, from: nat)
  {
    from < |g| && g[from].Some? && g[from].value.kind == Prey
  }

  /** A new Prey: type id 1, energy 0 unless the caller says otherwise. */
  function New(energy: real := DefaultEnergy): (r: Org)
    ensures GetType(r) == 1 && GetEnergy(r) == energy
  {
    Organism.New(energy, Prey)
  }

  function ShouldDie(o: Org): (r: bool)
    requires o.kind == Prey
    ensures r <==> GetEnergy(o) <= 0.0
  {
    GetEnergy(o) <= 0.0
  }

  /**
   * Reproduction: at or below the threshold nothing happens; above it the parent
   * pays the cost and a Prey with no energy is born. The parent keeps more than 9.
   */
  function TryReproduce(o: Org): (r: Birth)
    requires o.kind == Prey
    ensures GetEnergy(o) <= 20.0 ==> r == Birth(o, None)
    ensures GetEnergy(o) > 20.0 ==>
              && r.parent == Org(Prey, GetEnergy(o) - 11.0)
              && r.offspring == Some(Org(Prey, 0.0))
    ensures r.offspring.Some? ==> GetEnergy(r.parent) > 9.0 && !ShouldDie(r.parent)
  {
    if GetEnergy(o) <= ReproduceThreshold then Birth(o, None)
    else Birth(SetEnergy(o, GetEnergy(o) - ReproduceCost), Some(New(0.0)))
  }

  function Move(o: Org): (r: Org)
    requires o.kind == Prey
    ensures r.kind == Prey
    ensures GetEnergy(o) - GetEnergy(r) == 0.2
  {
    SetEnergy(o, GetEnergy(o) - MoveCost)
  }

  /**
   * Prey::InteractAt: move into an empty cell; facing a Predator the Prey's energy
   * drops to 0 and it stays where it is; facing another Prey nothing happens.
   */
  function InteractAt(g: Grid, from: nat, to: nat): (r: Grid)
    requires ActsAt(g, from) && to < |g|
    ensures |r| == |g|
    ensures g[to].None? ==> r[to] == g[from] && r[from] == None && SameExcept(g, r, from, to)
    ensures g[to].Some? && g[to].value.kind == Predator ==>
              && r[from] == Some(Org(Prey, 0.0))
              && ShouldDie(r[from].value)
              && SameExcept(g, r, from, from)
              && Occupancy(r) == Occupancy(g)
    ensures g[to].Some? && g[to].value.kind == Prey ==> r == g
    ensures Occupancy(r) <= Occupancy(g)
  {
    if g[to].None? then
      ReplaceOrganism(g, from, to)
    else if GetType(g[to].value) == 0 then
      OccupancyOverwrite(g, from, SetEnergy(g[from].value, 0.0));
      g[from := Some(SetEnergy(g[from].value, 0.0))]
    else
      g
  }
}
