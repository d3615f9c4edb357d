/**
 * The parking lot (`ParkingLot` in src/Main.java): floors numbered 1..N,
 * first-fit availability and park across floors in order, and a release that
 * runs on every floor.
 */
module Lots {
  import opened Wrappers
  import opened Spaces
  import Floors

  /** The lot: its floors in construction order. */
  datatype ParkingLot = ParkingLot(floors: seq<Floors.Floor>)

  /** The result of parking in the lot: the new lot and the slot used, or `None` for `null`. */
  datatype LotPark = LotPark(lot: ParkingLot, spot: Option<Coord>)

  /** Every slot of every floor satisfies the occupancy invariant. */
  predicate Valid(lot: ParkingLot)
  {
    forall k :: 0 <= k < |lot.floors| ==> Floors.Valid(lot.floors[k])
  }

  /** Floor `k` (0-based) carries number `k + 1`, and so do all its slots. */
  predicate Numbered(lot: ParkingLot)
  {
    forall k :: 0 <= k < |lot.floors| ==>
      && lot.floors[k].number == k + 1
      && forall i :: 0 <= i < |lot.floors[k].spaces| ==> lot.floors[k].spaces[i].floorNumber == k + 1
  }

  /** Both lots have the same floors with the same slots; only occupancy may differ. */
  predicate SameTopology(a: ParkingLot, b: ParkingLot)
  {
    && |a.floors| == |b.floors|
    && forall k :: 0 <= k < |a.floors| ==>
         a.floors[k].number == b.floors[k].number
         && Floors.SameLayout(a.floors[k].spaces, b.floors[k].spaces)
  }

  /** Replacing one floor by a same-layout floor keeps the lot's topology and invariants. */
  lemma ReplaceFloor(lot: ParkingLot, k: nat, g: Floors.Floor)
    requires k < |lot.floors|
    requires g.number == lot.floors[k].number
    requires Floors.SameLayout(lot.floors[k].spaces, g.spaces)
    ensures SameTopology(lot, lot.(floors := lot.floors[k := g]))
    ensures Valid(lot) && Floors.Valid(g) ==> Valid(lot.(floors := lot.floors[k := g]))
    ensures Numbered(lot) ==> Numbered(lot.(floors := lot.floors[k := g]))
  {
  }

  /** The floors appended by the constructor's loop `for i in 1..n`. */
  function BuildFloors(n: int, k: int): (r: seq<Floors.Floor>)
    ensures |r| == Floors.Max0(n)
    ensures forall j :: 0 <= j < |r| ==> r[j] == Floors.NewFloor(j + 1, k)
    decreases n
  {
    if n <= 0 then [] else BuildFloors(n - 1, k) + [Floors.NewFloor(n, k)]
  }

  /** `new ParkingLot(n, k)`: floors 1..n, each built with capacity `k` per category. */
  function NewLot(n: int, k: int): (lot: ParkingLot)
    ensures |lot.floors| == Floors.Max0(n)
    ensures forall j :: 0 <= j < |lot.floors| ==> lot.floors[j] == Floors.NewFloor(j + 1, k)
    ensures Valid(lot) && Numbered(lot)
  {
    ParkingLot(BuildFloors(n, k))
  }

  // ----- availability (isParkingAvailable) -----

  /** The loop of `isParkingAvailable`: does some floor report room for category `t`? */
  function AnyRoom(floors: seq<Floors.Floor>, t: VehicleType): (b: bool)
    ensures b <==> exists k :: 0 <= k < |floors| && Floors.IsSpaceAvailable(floors[k], t)
  {
    if |floors| == 0 then false
    else if Floors.IsSpaceAvailable(floors[0], t) then true
    else AnyRoom(floors[1..], t)
  }

  /** `isParkingAvailable(t)`: some floor has a free slot of category `t`. */
  function IsParkingAvailable(lot: ParkingLot, t: VehicleType): (b: bool)
    ensures b <==> exists k, i :: 0 <= k < |lot.floors| && 0 <= i < |lot.floors[k].spaces|
                                  && IsFree(lot.floors[k].spaces[i], t)
  {
    AnyRoom(lot.floors, t)
  }

  // ----- first-fit parking across floors (parkVehicle) -----

  /** Floor `k` is the first floor reporting room for category `t`. */
  predicate FirstRoom(floors: seq<Floors.Floor>, t: VehicleType, k: int)
  {
    && 0 <= k < |floors|
    && Floors.IsSpaceAvailable(floors[k], t)
    && forall j :: 0 <= j < k ==> !Floors.IsSpaceAvailable(floors[j], t)
  }

  /** The search in `parkVehicle`: the first floor with room for category `t`. */
  function FindRoom(floors: seq<Floors.Floor>, t: VehicleType): (r: Option<nat>)
    ensures r.Some? ==> FirstRoom(floors, t, r.value)
    ensures r.None? <==> forall k :: 0 <= k < |floors| ==> !Floors.IsSpaceAvailable(floors[k], t)
  {
    if |floors| == 0 then None
    else if Floors.IsSpaceAvailable(floors[0], t) then Some(0)
    else match FindRoom(floors[1..], t)
      case None => None
      case Some(k) => Some(k + 1)
  }

  /**
   * `parkVehicle(t, v)`: parks on the first floor with room for `t` and
   * returns that floor's answer; `None` exactly when the lot has no room, in
   * which case nothing changes. All other floors are untouched.
   */
  function Park(lot: ParkingLot, t: VehicleType, v: Vehicle): (r: LotPark)
    ensures SameTopology(lot, r.lot)
    ensures r.spot.None? <==> !IsParkingAvailable(lot, t)
    ensures r.spot.None? ==> r.lot == lot
    ensures r.spot.Some? ==>
      exists k :: (FirstRoom(lot.floors, t, k)
                   && r.lot.floors == lot.floors[k := Floors.Park(lot.floors[k], t, v).floor]
                   && r.spot == Floors.Park(lot.floors[k], t, v).spot)
    ensures Valid(lot) ==> Valid(r.lot)
    ensures Numbered(lot) ==> Numbered(r.lot)
  {
    match FindRoom(lot.floors, t)
    case None => LotPark(lot, None)
    case Some(k) =>
      var p := Floors.Park(lot.floors[k], t, v);
      ReplaceFloor(lot, k, p.floor);
      LotPark(lot.(floors := lot.floors[k := p.floor]), p.spot)
  }

  // ----- release (removeVehicle) -----

  /** Some slot anywhere in the lot holds a vehicle with registration `reg`. */
  predicate HeldAnywhere(lot: ParkingLot, reg: string)
    requires Valid(lot)
  {
    exists k :: 0 <= k < |lot.floors| && Floors.HoldsAny(lot.floors[k], reg)
  }

  /** The loop of `removeVehicle`: release `v` on every floor in turn. */
  function RemoveEach(floors: seq<Floors.Floor>, v: Vehicle): (r: seq<Floors.Floor>)
    requires forall k :: 0 <= k < |floors| ==> Floors.Valid(floors[k])
    ensures |r| == |floors|
    ensures forall k :: 0 <= k < |r| ==> r[k] == Floors.Remove(floors[k], v)
  {
    if |floors| == 0 then [] else [Floors.Remove(floors[0], v)] + RemoveEach(floors[1..], v)
  }

  /**
   * `removeVehicle(v)`: every floor releases the first slot holding `v`'s
   * registration. A registration parked nowhere leaves the lot unchanged.
   */
  function Remove(lot: ParkingLot, v: Vehicle): (r: ParkingLot)
    requires Valid(lot)
    ensures SameTopology(lot, r)
    ensures Valid(r)
    ensures Numbered(lot) ==> Numbered(r)
    ensures forall k :: 0 <= k < |lot.floors| ==> r.floors[k] == Floors.Remove(lot.floors[k], v)
    ensures !HeldAnywhere(lot, v.registration) ==> r == lot
  {
    ParkingLot(RemoveEach(lot.floors, v))
  }
}
