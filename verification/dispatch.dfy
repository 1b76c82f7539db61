/**
 * The behaviour Org.h declares pure virtual (ShouldDie, TryReproduce, Move,
 * InteractAt), dispatched on the organism's kind to the Predator or Prey rules.
 */
module Dispatch {

  import opened Slots
  import opened Organism
  import opened Grid
  import PredatorRules
  import PreyRules

  function ReproduceThreshold(k: Kind): real
  {
    match k
    case Predator => PredatorRules.ReproduceThreshold
    case Prey => PreyRules.ReproduceThreshold
  }

  function ReproduceCost(k: Kind): real
  {
    match k
    case Predator => PredatorRules.ReproduceCost
    case Prey => PreyRules.ReproduceCost
  }

  function MoveCost(k: Kind): real
  {
    match k
    case Predator => PredatorRules.MoveCost
    case Prey => PreyRules.MoveCost
  }

  /** Both kinds die at the same point: energy at or below zero. */
  function ShouldDie(o: Org): (r: bool)
    ensures r <==> GetEnergy(o) <= 0.0
  {
    match o.kind
    case Predator => PredatorRules.ShouldDie(o)
    case Prey => PreyRules.ShouldDie(o)
  }

  /**
   * Reproduction succeeds exactly above the kind's threshold; then the parent keeps
   * its kind and pays exactly the kind's cost, the offspring has the parent's kind
   * and no energy, and the parent does not have to die.
   */
  function TryReproduce(o: Org): (r: Birth)
    ensures r.offspring.Some? <==> GetEnergy(o) > ReproduceThreshold(o.kind)
    ensures r.offspring.None? ==> r.parent == o
    ensures r.offspring.Some? ==>
              && r.parent.kind == o.kind
              && GetEnergy(o) - GetEnergy(r.parent) == ReproduceCost(o.kind)
              && r.offspring.value == Org(o.kind, 0.0)
              && !ShouldDie(r.parent)
  {
    match o.kind
    case Predator => PredatorRules.TryReproduce(o)
    case Prey => PreyRules.TryReproduce(o)
  }

  /** Movement always costs energy and never changes the kind. */
  function Move(o: Org): (r: Org)
    ensures r.kind == o.kind
    ensures GetEnergy(r) == GetEnergy(o) - MoveCost(o.kind)
    ensures GetEnergy(r) < GetEnergy(o)
  {
    match o.kind
    case Predator => PredatorRules.Move(o)
    case Prey => PreyRules.Move(o)
  }

  /**
   * The interaction of the occupant of from with cell to. It only ever touches
   * those two cells, never adds an organism, leaves the grid alone when the target
   * holds the same kind, and vacates from exactly when it moves into an empty
   * cell or a Predator eats the Prey at to.
   */
  function InteractAt(g: Grid, from: nat, to: nat): (r: Grid)
    requires from < |g| && to < |g| && g[from].Some?
    ensures SameExcept(g, r, from, to)
    ensures Occupancy(r) <= Occupancy(g)
    ensures g[to].Some? && g[to].value.kind == g[from].value.kind ==> r == g
    ensures r[from].None? <==>
              from != to && (g[to].None? || (g[from].value.kind == Predator && g[to].value.kind == Prey))
  {
    match g[from].value.kind
    case Predator => PredatorRules.InteractAt(g, from, to)
    case Prey => PreyRules.InteractAt(g, from, to)
  }
}
