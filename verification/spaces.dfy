/**
 * A single parking slot (`VehicleSpace` in src/Main.java), the vehicle
 * categories and the vehicle identity the allocation engine works with.
 */
module Spaces {
  import opened Wrappers

  /** The closed set of vehicle categories, in declaration order. */
  datatype VehicleType = Bike | Car | Bus

  /** A vehicle, identified by its registration number (its colour carries no behaviour). */
  datatype Vehicle = Vehicle(registration: string)

  /** Where a parked vehicle stands: the floor number and the space number within the floor. */
  datatype Coord = Coord(floor: int, space: int)

  /**
   * One slot. `floorNumber`, `spaceNumber` and `kind` are fixed at construction
   * (the source has no setters for them); `available` and `parked` are the
   * occupancy state.
   */
  datatype VehicleSpace = VehicleSpace(
    floorNumber: int,
    spaceNumber: int,
    kind: VehicleType,
    available: bool,
    parked: Option<Vehicle>)

  /** The occupancy invariant: a slot is available exactly when nobody is parked in it. */
  predicate Valid(s: VehicleSpace)
  {
    s.available <==> s.parked.None?
  }

  /** Two records describe the same physical slot: the construction-time fields agree. */
  predicate SameSlot(a: VehicleSpace, b: VehicleSpace)
  {
    a.floorNumber == b.floorNumber && a.spaceNumber == b.spaceNumber && a.kind == b.kind
  }

  /** The test both floor scans apply: a free slot of category `t`. */
  predicate IsFree(s: VehicleSpace, t: VehicleType)
  {
    s.available && s.kind == t
  }

  /**
   * The test the release scan applies: an occupied slot whose occupant has
   * registration `reg`. Reading the occupant is only defined under the
   * occupancy invariant, as the source dereferences it without a null check.
   */
  predicate Holds(s: VehicleSpace, reg: string)
    requires Valid(s)
  {
    !s.available && s.parked.value.registration == reg
  }

  /** The coordinates a caller reads off a slot handed back by a park. */
  function CoordOf(s: VehicleSpace): Coord
  {
    Coord(s.floorNumber, s.spaceNumber)
  }

  /** A freshly constructed slot: free, empty, with the given identity. */
  function NewSpace(floorNumber: int, spaceNumber: int, t: VehicleType): (s: VehicleSpace)
    ensures Valid(s) && s.available
    ensures IsFree(s, t)
    ensures s.floorNumber == floorNumber && s.spaceNumber == spaceNumber && s.kind == t
  {
    VehicleSpace(floorNumber, spaceNumber, t, true, None)
  }

  /**
   * Parks `v` in the slot. As in the source this does not check that the slot
   * is free (an occupant already there is overwritten); the floor only calls it
   * on a free slot.
   */
  function Occupy(s: VehicleSpace, v: Vehicle): (r: VehicleSpace)
    ensures SameSlot(s, r)
    ensures Valid(r) && !r.available && r.parked == Some(v)
    ensures Holds(r, v.registration)
    ensures !IsFree(r, s.kind)
    // Parking into a free slot is undone by vacating it.
    ensures Valid(s) && s.available ==> Vacate(r) == s
  {
    s.(available := false, parked := Some(v))
  }

  /** Empties the slot. */
  function Vacate(s: VehicleSpace): (r: VehicleSpace)
    ensures SameSlot(s, r)
    ensures Valid(r) && r.available && r.parked.None?
    ensures IsFree(r, s.kind)
    ensures forall reg :: !Holds(r, reg)
    // Vacating a slot that is already free changes nothing.
    ensures Valid(s) && s.available ==> r == s
  {
    s.(available := true, parked := None)
  }
}
