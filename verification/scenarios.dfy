/** Small concrete runs of the rules, one per behaviour worth seeing on real numbers. */
module Scenarios {

  import opened Slots
  import opened Organism
  import opened Grid
  import PredatorRules
  import PreyRules
  import Dispatch
  import World
  import CorrectedWorld

  /** A Prey with 21 energy reproduces: the parent keeps 10, the offspring has 0. */
  lemma PreyReproduction()
    ensures PreyRules.TryReproduce(Org(Prey, 21.0)) == Birth(Org(Prey, 10.0), Some(Org(Prey, 0.0)))
  {
  }

  /** A freshly built Prey has no energy and so already qualifies for death. */
  lemma NewPreyShouldDie()
    ensures PreyRules.ShouldDie(PreyRules.New())
  {
  }

  /** A default Predator has 50 energy: not enough to reproduce, one move leaves 49.4. */
  lemma DefaultPredator()
    ensures PredatorRules.New() == Org(Predator, 50.0)
    ensures PredatorRules.TryReproduce(PredatorRules.New()).offspring.None?
    ensures GetEnergy(PredatorRules.Move(PredatorRules.New())) == 49.4
  {
  }

  /** A Predator with 10 energy eats the Prey next to it: it stands in the Prey's cell with 27. */
  lemma PredationOutcome()
    ensures Dispatch.InteractAt([Some(Org(Predator, 10.0)), Some(Org(Prey, 5.0))], 0, 1)
            == [None, Some(Org(Predator, 27.0))]
  {
  }

  /**
   * An offspring placed on an occupied neighbour replaces the occupant: the Prey at
   * cell 1 is lost, and the parent still paid for the birth.
   */
  lemma BirthOverwritesNeighbour()
    ensures World.Reproduce([Some(Org(Prey, 21.0)), Some(Org(Prey, 5.0))], 0, 1)
            == [Some(Org(Prey, 10.0)), Some(Org(Prey, 0.0))]
  {
  }

  /** A lone Predator that steps into an empty cell makes the tick read an empty cell. */
  lemma LonePredatorTickFaults()
    ensures World.Update([Some(Org(Predator, 50.0)), None], [0, 1], [0, 1],
                         [World.Draw(0, 1), World.Draw(0, 0)])
            == World.EmptyCellRead([None, Some(Org(Predator, 50.0))])
  {
  }

  /**
   * The same tick corrected: the Predator moves to cell 1, is visited again there and
   * moves back. No movement cost is ever charged, since the tick never calls Move.
   */
  lemma LonePredatorCorrectedTick()
    ensures CorrectedWorld.Update([Some(Org(Predator, 50.0)), None], [0, 1], [0, 1],
                                  [World.Draw(0, 1), World.Draw(0, 0)])
            == [Some(Org(Predator, 50.0)), None]
  {
  }

  /** A Predator whose neighbour draw is its own cell comes through a tick unchanged. */
  lemma StayingPredatorKeepsEnergy()
    ensures World.Update([Some(Org(Predator, 50.0))], [0], [0], [World.Draw(0, 0)])
            == World.Done([Some(Org(Predator, 50.0))])
  {
  }
}
