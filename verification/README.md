# Predator/prey grid: a Dafny model of the simulation rules

This project models the rules of a predator/prey ecosystem simulation. It is a
grid of cells, each empty or holding one organism. An organism is an energy value
plus a kind, Predator or Prey, that never changes. It covers two layers:

- **Organism rules** (`Org.h`, `Predator.h`, `Prey.h`): setting, adding, reading
  and consuming energy, the death test, reproduction with a per-kind threshold and
  cost, the movement cost, and the per-kind interaction with a target cell.
- **The world tick** (`World.h`): `ReplaceOrganism`, `MoveOrganism` and `Update`.
  `Update` runs a feeding pass over one permutation of the cells, then a
  reproduction-and-movement pass over a second permutation.

Randomness becomes input. The two permutations and every neighbour draw are
parameters. A neighbour draw may be any index of the grid, including the visited
cell itself. Energies are `real`, so 0.6, 0.2, 1.5 and 17 are exact.

Modules, in dependency order:

| module | file | models |
|---|---|---|
| `Slots` | slots.dfy | `Slot`, the value of a cell or of a possible offspring |
| `Organism` | organism.dfy | `Org.h`: state, energy operations, type id |
| `Grid` | grid.dfy | the cell store, `AddOrgAt`/`RemoveOrgAt`, `ReplaceOrganism` |
| `PredatorRules` | predator.dfy | `Predator.h` |
| `PreyRules` | prey.dfy | `Prey.h` |
| `Dispatch` | dispatch.dfy | the pure virtual members of `Org.h`, dispatched on the kind |
| `World` | world.dfy | `World.h` as written |
| `CorrectedWorld` | corrected_world.dfy | `MoveOrganism` and the tick as the code's comments describe them |
| `Scenarios` | scenarios.dfy | concrete runs |

`World.MoveOrganism` ends with a death check that reads the occupant of the cell
the mover started from (World.h:116). Every path that relocates an organism has
already emptied that cell (World.h:74, World.h:111). The model does not invent a
value for that read. It returns `EmptyCellRead` carrying the grid as it stood at
the read. A tick that reaches such a read stops there.

### What the tick does

The model follows the code of `Update` and `MoveOrganism`:

- The feeding pass feeds only Prey, with `ConsumeEnergy(10)`, which adds 20.
  Predators get nothing in that pass.
- `Update` never calls `Move`, `InteractAt` or any Prey death check. No movement
  cost is ever charged, and a Prey is never removed for lack of energy.
- Reproduction comes before movement, at the organism's starting cell.
- An offspring is written over whatever occupies the chosen neighbour, the parent
  included. It is not discarded when that cell is occupied.
- Only a Predator is checked for death, and only at the end of `MoveOrganism`.

## Model

| member | source | states |
|---|---|---|
| `Organism.New` | Org.h:29-32 | the base constructor stores exactly the given energy and kind |
| `Organism.DefaultConstruction` | Org.h:29-32 | default construction gives energy 0 and type id 0 |
| `Organism.GetEnergy` | Org.h:56 | reading the energy changes nothing: the value read, with the kind, is the whole organism |
| `Organism.GetType` | Org.h:74 | the type id is 0 exactly for a Predator and 1 exactly for a Prey |
| `Organism.TypeIdIsKind` | Org.h:20 | two organisms have equal type ids iff they have the same kind, so the code's id comparisons are kind comparisons |
| `Organism.SetEnergy` | Org.h:44 | afterwards the energy reads back as exactly the value given; the kind is untouched |
| `Organism.AddEnergy` | Org.h:50 | energy rises by exactly the delta, with no floor or ceiling; the kind is untouched |
| `Organism.EnergyAlgebra` | Org.h:44-56 | no energy operation changes the type id; a later set overrides an earlier one, setting the current energy is a no-op, additions compose, and an add is a set of the sum |
| `Organism.ConsumeEnergy` | Org.h:62-64 | is the addition of bonus + 10 and nothing else; the kind is untouched |
| `Grid.AddOrgAt` | World.h:58 | the organism is at pos afterwards, nothing else changes, and the count rises by one unless pos was occupied |
| `Grid.RemoveOrgAt` | World.h:118 | pos is empty afterwards, nothing else changes, and the count drops by one if pos was occupied |
| `Grid.OccupancyBound` | World.h:15 | a structural property of the cell store, true of every grid and not established by any operation: it never holds more organisms than it has cells |
| `Grid.ReplaceOrganism` | World.h:71-77 | to holds the former occupant of from and from is empty; every other cell is unchanged; exactly the former occupant of to is lost, so the count never grows |
| `PredatorRules.New` | Predator.h:18-19 | a new Predator has type id 0 and the given energy, 50 by default |
| `PredatorRules.ShouldDie` | Predator.h:25-27 | a Predator should die iff its energy is at most 0 |
| `PredatorRules.TryReproduce` | Predator.h:33-37 | at energy ≤ 50: no offspring, parent unchanged; above 50: parent loses exactly 25 and an energy-0 Predator is born; a parent that reproduced keeps more than 25 and need not die |
| `PredatorRules.Move` | Predator.h:42-44 | movement costs a Predator exactly 0.6 |
| `PredatorRules.HandlePreyInteraction` | Predator.h:67-74 | a Prey at to is removed, the Predator gains exactly 17, stands at to and leaves from empty, and the count drops by one; a Predator at to means no change |
| `PredatorRules.InteractAt` | Predator.h:52-58 | an empty to: the Predator relocates there, from is empty and the rest is unchanged; a Prey at to: it is eaten (+17) and replaced by the Predator; another Predator at to: no change |
| `PreyRules.New` | Prey.h:18-19 | a new Prey has type id 1 and the given energy, 0 by default |
| `PreyRules.ShouldDie` | Prey.h:25-27 | a Prey should die iff its energy is at most 0 |
| `PreyRules.TryReproduce` | Prey.h:33-37 | at energy ≤ 20: no offspring, parent unchanged; above 20: parent loses exactly 11 and an energy-0 Prey is born; the parent keeps more than 9 |
| `PreyRules.Move` | Prey.h:42-44 | movement costs a Prey exactly 0.2 |
| `PreyRules.InteractAt` | Prey.h:52-59 | an empty to: the Prey relocates there; a Predator at to: the Prey's energy becomes 0 (it should die), it stays put and the occupancy is unchanged; another Prey at to: no change |
| `Dispatch.ShouldDie` | Org.h:90 | both kinds die at the same point, energy at most 0 |
| `Dispatch.TryReproduce` | Org.h:96 | an offspring exists iff energy exceeds the kind's threshold; it then has the parent's kind and 0 energy, the parent pays exactly the kind's cost and need not die; otherwise the parent is unchanged |
| `Dispatch.Move` | Org.h:101 | movement lowers energy by exactly the kind's cost and keeps the kind |
| `Dispatch.InteractAt` | Org.h:109-111 | only from and to can change; no organism is created; a same-kind target is a no-op; from is vacated iff the mover enters an empty cell or a Predator eats the Prey at to |
| `World.FeedCell` | World.h:43-47 | one feeding step: an empty cell is skipped, a Prey gains 20, a Predator is untouched, other cells are unchanged |
| `World.FeedPass` | World.h:42-48 | over any schedule, feeding keeps every cell's occupancy and kind, never lowers an energy and never touches a Predator |
| `World.FeedPassOnce` | World.h:42-48 | with no index repeated, exactly the scheduled cells are fed, each once |
| `World.FeedPassFeedsEveryPrey` | World.h:39-48 | over a permutation, every Prey gains exactly 20 once; Predators and the occupancy are unchanged |
| `World.Reproduce` | World.h:56-59 | at or below the threshold the grid is unchanged; above it the offspring (own kind, energy 0) is at the drawn neighbour and the parent, unless overwritten, has paid the cost; the count grows by at most one |
| `World.DeathCheck` | World.h:116-119 | it reads an empty cell iff cell i is empty; otherwise it removes the occupant iff it is a Predator with energy ≤ 0 and changes nothing else |
| `World.Predation` | World.h:91-103 | whichever of the two kinds is at i, afterwards the Predator is at i, j is empty, no other cell changes and one organism is lost; a Predator starting at i has gained 23 (fed twice, because line 99 re-reads j), a Predator starting at j has gained 11.5 |
| `World.MoveOrganism` | World.h:83-120 | the death check reads an empty cell iff the target was empty or held the other kind, so every relocating path ends in that read; against the same kind, only the death check acts |
| `World.PredatorFeedsTwice` | World.h:93-113 | a Predator at i meeting a Prey at j gains 23, not the single 11.5 the comment at line 94 describes, and ends at j with i emptied |
| `World.PredatorReturnsToTarget` | World.h:98-113 | a Prey at i next to a Predator at j is eaten; the Predator gains 11.5 but ends back at j, not in the Prey's cell |
| `World.Visit` | World.h:52-62 | an empty scheduled cell is skipped; a visit adds at most one organism |
| `World.OffspringBlocksMove` | World.h:55-61 | reproduction runs before movement: an offspring born in the cell the parent then looks at blocks the move, so the parent stays put having paid the cost, next to its energy-0 offspring |
| `World.SecondPass` | World.h:51-62 | the pass keeps the grid size, and when it completes it adds at most one organism per visit (over a full permutation this follows from the size alone) |
| `World.EmptyVisitsSkipped` | World.h:53 | a pass that visits only empty cells leaves the grid unchanged |
| `World.Update` | World.h:36-63 | whatever the feeding order s1, a tick is every Prey fed 20 once (`FedAll`) followed by the second pass over s2; it keeps the grid size |
| `CorrectedWorld.Settle` | World.h:115-119 | the death check at the mover's final cell removes a Predator with energy ≤ 0 and nothing else |
| `CorrectedWorld.MoveOrganism` | World.h:83-120 | never reads an empty cell; a Predator eating a Prey gains exactly 11.5 and ends in the Prey's cell; a move to an empty cell relocates; a same-kind target keeps the mover in place; the count never grows |
| `CorrectedWorld.NoStarvedPredatorRemains` | World.h:115-119 | the cell a move ends in holds no Predator with energy ≤ 0, and the other cell involved is empty or unchanged |
| `CorrectedWorld.MoveAgrees` | World.h:88-120 | wherever the code as written completes a move, the corrected move gives the same grid |
| `CorrectedWorld.MoveFinishesFault` | World.h:107-119 | a move into an empty cell faults as written; the corrected move ends in the state of that fault, with the death check applied at the target |
| `CorrectedWorld.Visit` | World.h:52-62 | an empty scheduled cell is skipped; a visit adds at most one organism |
| `CorrectedWorld.SecondPass` | World.h:51-62 | the corrected pass never faults and adds at most one organism per visit (over a full permutation this follows from the size alone) |
| `CorrectedWorld.Update` | World.h:36-63 | whatever the feeding order s1, the corrected tick is every Prey fed 20 once (`World.FedAll`) followed by the corrected second pass over s2; it keeps the grid size |
| `CorrectedWorld.SecondPassAgrees` | World.h:51-62 | on every second pass the code as written completes, the corrected pass ends in the same grid |
| `CorrectedWorld.UpdateAgrees` | World.h:36-63 | the correction changes only the ticks on which the code as written faults |
| `Scenarios.PreyReproduction` | Prey.h:33-37 | a Prey with 21 energy reproduces into a parent with 10 and an offspring with 0 |
| `Scenarios.NewPreyShouldDie` | Prey.h:18-27 | a Prey built with default energy should die at once |
| `Scenarios.DefaultPredator` | Predator.h:18-44 | a default Predator has 50 energy, cannot reproduce, and has 49.4 after one move |
| `Scenarios.PredationOutcome` | Predator.h:52-74 | a Predator with 10 energy eats the adjacent Prey and stands in its cell with 27 |
| `Scenarios.BirthOverwritesNeighbour` | World.h:56-59 | an offspring placed on an occupied neighbour replaces the occupant; the parent still pays |
| `Scenarios.LonePredatorTickFaults` | World.h:107-118 | a lone Predator stepping into an empty cell makes the tick read an empty cell |
| `Scenarios.LonePredatorCorrectedTick` | World.h:51-62 | corrected, the same Predator moves to cell 1, is visited again there and moves back, with its energy unchanged |
| `Scenarios.StayingPredatorKeepsEnergy` | World.h:36-63 | a Predator whose neighbour draw is its own cell comes through a tick unchanged, because no movement cost is charged |

## Findings

| source | as written | input that shows it | evidently intended | confidence | as-written member | corrected member |
|---|---|---|---|---|---|---|
| World.h:116 | the death check dereferences `pop[i]`, but every relocating path has cleared it (lines 74 and 111) | cells [Predator 50, empty], i = 0, neighbour 1 | check the organism in the cell where it ended | high; not executed | `World.MoveOrganism` | `CorrectedWorld.MoveOrganism` |
| World.h:99 | the second `if` re-reads `pop[j]` after the Predator has moved there, so it is fed again (+23 in all) and moved back to i | cells [Predator 10, Prey 5], i = 0, neighbour 1: Predator ends with 33 | `else if`: one meal of 11.5, as the comment at line 94 says | high; not executed | `World.PredatorFeedsTwice` | `CorrectedWorld.MoveOrganism` |
| World.h:107 | the empty-target test re-reads `pop[j]` after the meeting emptied it, so a Predator that moved into the Prey's cell is moved straight back | cells [Prey 5, Predator 10], i = 0, neighbour 1: Predator ends in cell 1 | `else if`: the Predator stays in the Prey's cell, as the comment at line 101 says | high; not executed | `World.PredatorReturnsToTarget` | `CorrectedWorld.MoveOrganism` |

## Left out

- `AEAnimate.cpp`: canvas drawing, buttons, page text and `main` are user interface. Its constructor calls with three arguments (AEAnimate.cpp:57-58) match neither `Prey.h:18` nor `Predator.h:18`.
- The population library (`emp::World`) is not part of this model. Permutations and neighbour draws are inputs. `IsOccupied`, `GetOrgPtr` and the cell reads are plain sequence reads.
- `AddOrgAt` on an occupied cell is modelled as an overwrite. This is an assumption, because the library is not part of this model.
- Random-number plumbing carries no simulation behaviour: the generator pointer (Org.h:19, Org.h:80), the world's generator fields and constructor (World.h:18-31), and the unused `species` field (World.h:20).
- `double` rounding: energies are exact reals.
- Pointer ownership, aliasing and deletion: cells hold organisms by value. Moving a pointer is moving the value.
- `NeedsToDie` (World.h:116) is not defined in the code shown. It is modelled as `Predator::ShouldDie`.
- The circular includes between `World.h` and `Predator.h`/`Prey.h` are not modelled. The module order above breaks the cycle.
- The base constructor accepts any integer type id. Only 0 and 1 are ever passed, so the kind is a closed two-valued datatype.
- World.Update: after a read of an empty cell the source's behaviour is undefined. The model stops the tick there and reports the grid at that point.
- World.Update: its contract reduces the tick to `FedAll` and the second pass but says nothing further about that pass. Its occupancy bound follows from the grid size alone (`Grid.OccupancyBound`). The second pass is stated through its visits.
- CorrectedWorld.Update: its contract reduces the tick to `World.FedAll` and the corrected second pass. Its occupancy bound follows from the grid size alone. `CorrectedWorld.UpdateAgrees` relates it to the code as written.
- World.SecondPass: its contract states only the grid size and the per-visit birth bound, which over a full permutation says nothing beyond the size. The behaviour of each visit is stated on `World.Visit`, `World.Reproduce` and `World.MoveOrganism`.
- World.Visit: its contract states the skip and the birth bound. That reproduction runs before movement is stated by `World.OffspringBlocksMove`.
- CorrectedWorld.Visit: its contract states the skip and the birth bound. The effect of each step is stated on `World.Reproduce` and `CorrectedWorld.MoveOrganism`, and the visit's agreement with the code as written by `CorrectedWorld.SecondPassAgrees`.
- CorrectedWorld.SecondPass: its contract states the grid size, that it never faults, and the per-visit birth bound, which over a full permutation says nothing beyond the size. The behaviour of each visit is stated on `World.Reproduce` and `CorrectedWorld.MoveOrganism`, and the agreement with the code as written by `CorrectedWorld.SecondPassAgrees`.
