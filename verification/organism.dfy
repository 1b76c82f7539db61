/**
 * The state every organism shares (Org.h): an energy value and a kind that is
 * fixed at construction. The source stores the kind as an integer type id
 * (0 = Predator, 1 = Prey); the model uses a closed datatype and maps it back
 * through GetType wherever the source compares type ids.
 */
module Organism {

  import opened Slots

  datatype Kind = Predator | Prey

  /** An organism by value: no operation ever writes its kind. */
  datatype Org = Org(kind: Kind, energy: real)

  /** What TryReproduce leaves behind: the parent after paying the cost, and the offspring if any. */
  datatype Birth = Birth(parent: Org, offspring: Slot<Org>)

  /** The constant added by ConsumeEnergy on top of the caller's bonus. */
  const BaseIntake: real := 10.0

  /** The base constructor with the source's defaults: energy 0 and type id 0. */
  function New(energy: real := 0.0, kind: Kind := Predator): (r: Org)
    ensures r.energy == energy && r.kind == kind
  {
    Org(kind, energy)
  }

  /** A pure read: the value returned together with the kind is the whole organism. */
  function GetEnergy(o: Org): (e: real)
    ensures Org(o.kind, e) == o
  {
    o.energy
  }

  /** The integer type id; comparing ids is the same as comparing kinds. */
  function GetType(o: Org): (t: int)
    ensures t == 0 <==> o.kind == Predator
    ensures t == 1 <==> o.kind == Prey
  {
    match o.kind
    case Predator => 0
    case Prey => 1
  }

  function SetEnergy(o: Org, v: real): (r: Org)
    ensures GetEnergy(r) == v
    ensures r.kind == o.kind
  {
    o.(energy := v)
  }

  /** Unconstrained addition: no floor and no ceiling. */
  function AddEnergy(o: Org, delta: real): (r: Org)
    ensures GetEnergy(r) - GetEnergy(o) == delta
    ensures r.kind == o.kind
  {
    o.(energy := o.energy + delta)
  }

  /** Environmental intake: the bonus plus the flat base intake, and nothing else. */
  function ConsumeEnergy(o: Org, bonus: real): (r: Org)
    ensures r == AddEnergy(o, bonus + 10.0)
    ensures GetEnergy(r) - GetEnergy(o) == bonus + 10.0
    ensures r.kind == o.kind
  {
    o.(energy := o.energy + bonus + BaseIntake)
  }

  /** Default construction yields energy 0 and type id 0. */
  lemma DefaultConstruction()
    ensures GetEnergy(New()) == 0.0 && GetType(New()) == 0
  {
  }

  /**
   * The energy operations compose as plain arithmetic on one value, and none of
   * them changes the type id.
   */
  lemma EnergyAlgebra(o: Org, v: real, a: real, b: real)
    ensures GetType(SetEnergy(o, v)) == GetType(AddEnergy(o, a)) == GetType(ConsumeEnergy(o, b)) == GetType(o)
    ensures SetEnergy(SetEnergy(o, v), a) == SetEnergy(o, a)
    ensures SetEnergy(o, GetEnergy(o)) == o
    ensures AddEnergy(AddEnergy(o, a), b) == AddEnergy(o, a + b)
    ensures AddEnergy(o, a) == SetEnergy(o, GetEnergy(o) + a)
  {
  }

  /** Two organisms have the same type id exactly when they have the same kind. */
  lemma TypeIdIsKind(a: Org, b: Org)
    ensures GetType(a) == GetType(b) <==> a.kind == b.kind
  {
  }
}
