/**
 * Predator behaviour (Predator.h): reproduction above 50 energy at a cost of 25,
 * a movement cost of 0.6, and predation worth 17 energy when it meets a Prey.
 */
module PredatorRules {

  import opened Slots
  import opened Organism
  import opened Grid

  const DefaultEnergy: real := 50.0
  const ReproduceThreshold: real := 50.0
  const ReproduceCost: real := 25.0
  const MoveCost: real := 0.6
  const PreyValue: real := 17.0

  /** A Predator acts from cell from: the organism the method is called on sits there. */
  predicate ActsAt(g: Grid, from: nat)
  {
    from < |g| && g[from].Some? && g[from].value.kind == Predator
  }

  /** A new Predator: type id 0, energy 50 unless the caller says otherwise. */
  function New(energy: real := DefaultEnergy): (r: Org)
    ensures GetType(r) == 0 && GetEnergy(r) == energy
  {
    Organism.New(energy, Predator)
  }

  function ShouldDie(o: Org): (r: bool)
    requires o.kind == Predator
    ensures r <==> GetEnergy(o) <= 0.0
  {
    GetEnergy(o) <= 0.0
  }

  /**
   * Reproduction: at or below the threshold nothing happens; above it the parent
   * pays the cost and a Predator with no energy is born. The parent keeps more
   * than threshold - cost = 25, so a successful parent never has to die.
   */
  function TryReproduce(o: Org): (r: Birth)
    requires o.kind == Predator
    ensures GetEnergy(o) <= 50.0 ==> r == Birth(o, None)
    ensures GetEnergy(o) > 50.0 ==>
              && r.parent == Org(Predator, GetEnergy(o) - 25.0)
              && r.offspring == Some(Org(Predator, 0.0))
    ensures r.offspring.Some? ==> GetEnergy(r.parent) > 25.0 && !ShouldDie(r.parent)
  {
    if GetEnergy(o) <= ReproduceThreshold then Birth(o, None)
    else Birth(SetEnergy(o, GetEnergy(o) - ReproduceCost), Some(New(0.0)))
  }

  function Move(o: Org): (r: Org)
    requires o.kind == Predator
    ensures r.kind == Predator
    ensures GetEnergy(o) - GetEnergy(r) == 0.6
  {
    SetEnergy(o, GetEnergy(o) - MoveCost)
  }

  /**
   * Interaction with an occupied cell: a Prey there is killed (energy set to 0),
   * the Predator gains 17 and takes its place; another Predator there is ignored.
   */
  function HandlePreyInteraction(g: Grid, from: nat, to: nat): (r: Grid)
    requires ActsAt(g, from) && to < |g| && g[to].Some?
    ensures |r| == |g|
    ensures g[to].value.kind == Predator ==> r == g
    ensures g[to].value.kind == Prey ==>
              && from != to
              && r[to] == Some(Org(Predator, GetEnergy(g[from].value) + 17.0))
              && r[from] == None
              && SameExcept(g, r, from, to)
              && Occupancy(r) == Occupancy(g) - 1
  {
    var other := g[to].value;
    if GetType(other) == 1 then
      var fed := g[from := Some(AddEnergy(g[from].value, PreyValue))];
      var killed := fed[to := Some(SetEnergy(other, 0.0))];
      var r := ReplaceOrganism(killed, from, to);
      assert r == g[from := None][to := Some(AddEnergy(g[from].value, PreyValue))];
      MoveCount(g, from, to, AddEnergy(g[from].value, PreyValue));
      r
    else
      g
  }

  /** Predator::InteractAt: move into an empty cell, otherwise try to eat what is there. */
  function InteractAt(g: Grid, from: nat, to: nat): (r: Grid)
    requires ActsAt(g, from) && to < |g|
    ensures |r| == |g|
    ensures g[to].None? ==> r[to] == g[from] && r[from] == None && SameExcept(g, r, from, to)
    ensures g[to].Some? && g[to].value.kind == Prey ==>
              && r[to] == Some(Org(Predator, GetEnergy(g[from].value) + 17.0))
              && r[from] == None
              && SameExcept(g, r, from, to)
    ensures g[to].Some? && g[to].value.kind == Predator ==> r == g
    ensures Occupancy(r) <= Occupancy(g)
  {
    if g[to].Some? then HandlePreyInteraction(g, from, to)
    else ReplaceOrganism(g, from, to)
  }
}
