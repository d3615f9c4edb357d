/**
 * One parking floor (`Floor` in src/Main.java): an ordered list of slots built
 * once, with a first-fit availability scan, a first-fit park and a release by
 * registration number.
 */
module Floors {
  import opened Wrappers
  import opened Spaces

  /** A floor: its number and its slots in construction order. */
  datatype Floor = Floor(number: int, spaces: seq<VehicleSpace>)

  /** The result of parking on a floor: the new floor and the slot used, or `None` for `null`. */
  datatype FloorPark = FloorPark(floor: Floor, spot: Option<Coord>)

  /** For each index the constructor appends one slot of each category, in this order. */
  const Kinds: seq<VehicleType> := [Bike, Car, Bus]

  /** Every slot of the floor satisfies the occupancy invariant. */
  predicate Valid(f: Floor)
  {
    forall i :: 0 <= i < |f.spaces| ==> Spaces.Valid(f.spaces[i])
  }

  /** Two slot lists describe the same physical slots, index by index. */
  predicate SameLayout(a: seq<VehicleSpace>, b: seq<VehicleSpace>)
  {
    |a| == |b| && forall i :: 0 <= i < |a| ==> SameSlot(a[i], b[i])
  }

  /**
   * The layout the constructor gives a floor of capacity `k` per category:
   * 3k slots, slot `j` carrying the floor's number, space number `j / 3 + 1`
   * and category `Kinds[j % 3]`. No operation changes it afterwards.
   */
  predicate LaidOut(f: Floor, k: nat)
  {
    && |f.spaces| == 3 * k
    && forall j :: 0 <= j < |f.spaces| ==>
         SameSlot(f.spaces[j], NewSpace(f.number, j / 3 + 1, Kinds[j % 3]))
  }

  function Max0(k: int): nat
  {
    if k < 0 then 0 else k
  }

  /** The three slots the constructor appends for index `i`. */
  function Row(n: int, i: int): seq<VehicleSpace>
  {
    [NewSpace(n, i, Bike), NewSpace(n, i, Car), NewSpace(n, i, Bus)]
  }

  /** The slots appended by the constructor's loop `for i in 1..k`. */
  function Build(n: int, k: int): (r: seq<VehicleSpace>)
    ensures |r| == 3 * Max0(k)
    ensures forall j :: 0 <= j < |r| ==> r[j] == NewSpace(n, j / 3 + 1, Kinds[j % 3])
    decreases k
  {
    if k <= 0 then [] else Build(n, k - 1) + Row(n, k)
  }

  /** `new Floor(n, k)`: 3k free slots of floor `n`, laid out per index as Bike, Car, Bus. */
  function NewFloor(n: int, k: int): (f: Floor)
    ensures f.number == n
    ensures |f.spaces| == 3 * Max0(k)
    ensures Valid(f)
    ensures forall j :: 0 <= j < |f.spaces| ==> f.spaces[j].available && f.spaces[j].floorNumber == n
    ensures LaidOut(f, Max0(k))
  {
    Floor(n, Build(n, k))
  }

  // ----- the availability scan (isSpaceAvailable) -----

  /** The loop of `isSpaceAvailable`: is some slot in `s` free and of category `t`? */
  function AnyFree(s: seq<VehicleSpace>, t: VehicleType): (b: bool)
    ensures b <==> exists i :: 0 <= i < |s| && IsFree(s[i], t)
  {
    if |s| == 0 then false
    else if IsFree(s[0], t) then true
    else AnyFree(s[1..], t)
  }

  /** `isSpaceAvailable(t)`. */
  function IsSpaceAvailable(f: Floor, t: VehicleType): (b: bool)
    ensures b <==> exists i :: 0 <= i < |f.spaces| && IsFree(f.spaces[i], t)
  {
    AnyFree(f.spaces, t)
  }

  // ----- first-fit parking (parkVehicle) -----

  /** Index `i` is the first free slot of category `t` in list order. */
  predicate FirstFit(s: seq<VehicleSpace>, t: VehicleType, i: int)
  {
    && 0 <= i < |s|
    && IsFree(s[i], t)
    && forall j :: 0 <= j < i ==> !IsFree(s[j], t)
  }

  /** The search in `parkVehicle`: the index of the first free slot of category `t`. */
  function FirstFree(s: seq<VehicleSpace>, t: VehicleType): (r: Option<nat>)
    ensures r.Some? ==> FirstFit(s, t, r.value)
    ensures r.None? <==> forall i :: 0 <= i < |s| ==> !IsFree(s[i], t)
  {
    if |s| == 0 then None
    else if IsFree(s[0], t) then Some(0)
    else match FirstFree(s[1..], t)
      case None => None
      case Some(i) => Some(i + 1)
  }

  /** The first-fit index is unique. */
  lemma FirstFitUnique(s: seq<VehicleSpace>, t: VehicleType, i: int, j: int)
    requires FirstFit(s, t, i) && FirstFit(s, t, j)
    ensures i == j
  {
  }

  /**
   * `parkVehicle(t, v)`: occupies the first free slot of category `t` with `v`
   * and returns its coordinates; `None` (the source's `null`) when there is no
   * such slot, in which case the floor is unchanged.
   */
  function Park(f: Floor, t: VehicleType, v: Vehicle): (r: FloorPark)
    ensures r.floor.number == f.number
    ensures SameLayout(f.spaces, r.floor.spaces)
    ensures r.spot.None? <==> !IsSpaceAvailable(f, t)
    ensures r.spot.None? ==> r.floor == f
    ensures r.spot.Some? ==>
      exists i :: (FirstFit(f.spaces, t, i)
                   && r.floor.spaces == f.spaces[i := Occupy(f.spaces[i], v)]
                   && r.spot.value == CoordOf(f.spaces[i]))
    ensures Valid(f) ==> Valid(r.floor)
  {
    match FirstFree(f.spaces, t)
    case None => FloorPark(f, None)
    case Some(i) =>
      var s := f.spaces[i];
      FloorPark(f.(spaces := f.spaces[i := Occupy(s, v)]), Some(CoordOf(s)))
  }

  // ----- release by registration (removeVehicle) -----

  /** Index `i` is the first occupied slot whose occupant has registration `reg`. */
  predicate FirstHolder(s: seq<VehicleSpace>, reg: string, i: int)
    requires forall j :: 0 <= j < |s| ==> Spaces.Valid(s[j])
  {
    && 0 <= i < |s|
    && Holds(s[i], reg)
    && forall j :: 0 <= j < i ==> !Holds(s[j], reg)
  }

  /** The search in `removeVehicle`: the first occupied slot holding `reg`. */
  function FindHolder(s: seq<VehicleSpace>, reg: string): (r: Option<nat>)
    requires forall j :: 0 <= j < |s| ==> Spaces.Valid(s[j])
    ensures r.Some? ==> FirstHolder(s, reg, r.value)
    ensures r.None? <==> forall i :: 0 <= i < |s| ==> !Holds(s[i], reg)
  {
    if |s| == 0 then None
    else if Holds(s[0], reg) then Some(0)
    else match FindHolder(s[1..], reg)
      case None => None
      case Some(i) => Some(i + 1)
  }

  /** Some slot of the floor holds a vehicle with registration `reg`. */
  predicate HoldsAny(f: Floor, reg: string)
    requires Valid(f)
  {
    exists i :: 0 <= i < |f.spaces| && Holds(f.spaces[i], reg)
  }

  /**
   * `removeVehicle(v)`: vacates the first occupied slot whose occupant's
   * registration equals `v`'s, and nothing else; a floor holding no such
   * vehicle is returned unchanged. The occupancy invariant is what makes the
   * source's unguarded read of the occupant safe.
   */
  function Remove(f: Floor, v: Vehicle): (r: Floor)
    requires Valid(f)
    ensures r.number == f.number
    ensures SameLayout(f.spaces, r.spaces)
    ensures Valid(r)
    ensures !HoldsAny(f, v.registration) ==> r == f
    ensures forall i :: FirstHolder(f.spaces, v.registration, i) ==>
              r.spaces == f.spaces[i := Vacate(f.spaces[i])]
  {
    match FindHolder(f.spaces, v.registration)
    case None => f
    case Some(i) => f.(spaces := f.spaces[i := Vacate(f.spaces[i])])
  }
}
