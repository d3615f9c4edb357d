/**
 * Properties of the whole lot: free counts, availability of a fresh lot,
 * first-fit across floors, exhaustion after N·K parks, and release.
 */
module LotFacts {
  import opened Wrappers
  import opened Spaces
  import Floors
  import opened FloorFacts
  import opened Lots

  /** Number of free slots of category `t` over all floors. */
  function FreeCount(floors: seq<Floors.Floor>, t: VehicleType): nat
  {
    if |floors| == 0 then 0 else CountFree(floors[0].spaces, t) + FreeCount(floors[1..], t)
  }

  lemma {:induction false} FreeCountAppend(a: seq<Floors.Floor>, b: seq<Floors.Floor>, t: VehicleType)
    ensures FreeCount(a + b, t) == FreeCount(a, t) + FreeCount(b, t)
    decreases |a|
  {
    if |a| == 0 {
      assert a + b == b;
    } else {
      assert (a + b)[1..] == a[1..] + b;
      FreeCountAppend(a[1..], b, t);
    }
  }

  /** Replacing one floor changes the lot's free count by the difference in that floor's count. */
  lemma {:induction false} FreeCountUpdate(floors: seq<Floors.Floor>, k: nat, g: Floors.Floor, t: VehicleType)
    requires k < |floors|
    ensures FreeCount(floors[k := g], t)
         == FreeCount(floors, t) - CountFree(floors[k].spaces, t) + CountFree(g.spaces, t)
    decreases k
  {
    if k == 0 {
      assert floors[k := g][1..] == floors[1..];
    } else {
      assert floors[k := g][1..] == floors[1..][k - 1 := g];
      FreeCountUpdate(floors[1..], k - 1, g, t);
    }
  }

  lemma {:induction false} FreeCountPositiveOn(floors: seq<Floors.Floor>, t: VehicleType)
    ensures FreeCount(floors, t) > 0 <==> AnyRoom(floors, t)
    decreases |floors|
  {
    if |floors| > 0 {
      CountFreePositive(floors[0].spaces, t);
      FreeCountPositiveOn(floors[1..], t);
      if !Floors.IsSpaceAvailable(floors[0], t) {
        assert AnyRoom(floors, t) == AnyRoom(floors[1..], t);
      }
    }
  }

  /** The lot reports room for category `t` exactly when its free count for `t` is positive. */
  lemma FreeCountPositive(lot: ParkingLot, t: VehicleType)
    ensures FreeCount(lot.floors, t) > 0 <==> IsParkingAvailable(lot, t)
  {
    FreeCountPositiveOn(lot.floors, t);
  }

  lemma {:induction false} BuildFloorsFreeCount(n: int, k: int, t: VehicleType)
    ensures FreeCount(BuildFloors(n, k), t) == Floors.Max0(n) * Floors.Max0(k)
    decreases Floors.Max0(n)
  {
    if n > 0 {
      var a, f := BuildFloors(n - 1, k), Floors.NewFloor(n, k);
      assert BuildFloors(n, k) == a + [f];
      BuildFloorsFreeCount(n - 1, k, t);
      FreeCountAppend(a, [f], t);
      NewFloorFreeCount(n, k, t);
      assert [f][1..] == [];
      assert FreeCount([f], t) == CountFree(f.spaces, t);
      MulSucc(Floors.Max0(n - 1), Floors.Max0(k));
    }
  }

  lemma MulSucc(m: nat, c: nat)
    ensures (m + 1) * c == m * c + c
  {
  }

  /** A lot built with `n` floors of capacity `k` has n·k free slots of each category. */
  lemma NewLotFreeCount(n: int, k: int, t: VehicleType)
    ensures FreeCount(NewLot(n, k).floors, t) == Floors.Max0(n) * Floors.Max0(k)
  {
    BuildFloorsFreeCount(n, k, t);
  }

  /**
   * A fresh lot has room for every category exactly when it has at least one
   * floor and a positive capacity (for non-negative arguments: when n·k > 0).
   */
  lemma NewLotAvailable(n: int, k: int, t: VehicleType)
    ensures IsParkingAvailable(NewLot(n, k), t) <==> n > 0 && k > 0
    ensures n >= 0 && k >= 0 ==> (IsParkingAvailable(NewLot(n, k), t) <==> n * k > 0)
  {
    NewLotFreeCount(n, k, t);
    FreeCountPositive(NewLot(n, k), t);
    if n > 0 && k > 0 {
      assert Floors.Max0(n) * Floors.Max0(k) > 0;
    }
    if n >= 0 && k >= 0 {
      MulPositive(n, k);
    }
  }

  lemma MulPositive(n: nat, k: nat)
    ensures n * k > 0 <==> n > 0 && k > 0
  {
    if n > 0 && k > 0 {
      MulSucc(n - 1, k);
    }
  }

  /**
   * A successful park consumes exactly one free slot of the requested
   * category across the lot; the other categories keep their counts.
   */
  lemma LotParkConsumesOne(lot: ParkingLot, t: VehicleType, v: Vehicle, u: VehicleType)
    requires IsParkingAvailable(lot, t)
    ensures Park(lot, t, v).spot.Some?
    ensures FreeCount(Park(lot, t, v).lot.floors, u)
         == FreeCount(lot.floors, u) - (if u == t then 1 else 0)
  {
    var r := Park(lot, t, v);
    var k :| FirstRoom(lot.floors, t, k)
             && r.lot.floors == lot.floors[k := Floors.Park(lot.floors[k], t, v).floor]
             && r.spot == Floors.Park(lot.floors[k], t, v).spot;
    FloorParkConsumesOne(lot.floors[k], t, v, u);
    FreeCountUpdate(lot.floors, k, Floors.Park(lot.floors[k], t, v).floor, u);
  }

  /** Every floor of the lot keeps the constructor's layout for capacity `cap`. */
  predicate AllLaidOut(lot: ParkingLot, cap: nat)
  {
    forall k :: 0 <= k < |lot.floors| ==> Floors.LaidOut(lot.floors[k], cap)
  }

  /**
   * In a lot laid out by the constructor, a successful park returns the
   * lowest free coordinate of the category: the lowest-numbered floor with
   * room, and on it the lowest-numbered free slot.
   */
  lemma LotParkLowest(lot: ParkingLot, cap: nat, t: VehicleType, v: Vehicle)
    requires Numbered(lot)
    requires AllLaidOut(lot, cap)
    requires IsParkingAvailable(lot, t)
    ensures Park(lot, t, v).spot.Some?
    ensures forall k, i :: 0 <= k < |lot.floors| && 0 <= i < |lot.floors[k].spaces|
                           && IsFree(lot.floors[k].spaces[i], t) ==>
              var c := Park(lot, t, v).spot.value;
              c.floor < k + 1 || (c.floor == k + 1 && c.space <= lot.floors[k].spaces[i].spaceNumber)
  {
    var k0 := FindRoom(lot.floors, t).value;
    var f := lot.floors[k0];
    FloorParkLowest(f, cap, t, v);
    var c := Floors.Park(f, t, v).spot.value;
    assert Park(lot, t, v).spot == Some(c);
    LowestAmongFloors(lot.floors, t, k0, c);
  }

  /**
   * A coordinate on the first floor with room that is lowest on that floor
   * is lowest in the whole lot, floors ordered by number.
   */
  lemma LowestAmongFloors(floors: seq<Floors.Floor>, t: VehicleType, k0: int, c: Coord)
    requires FirstRoom(floors, t, k0) && c.floor == k0 + 1
    requires forall i :: 0 <= i < |floors[k0].spaces| && IsFree(floors[k0].spaces[i], t) ==>
               c.space <= floors[k0].spaces[i].spaceNumber
    ensures forall k, i :: 0 <= k < |floors| && 0 <= i < |floors[k].spaces|
                           && IsFree(floors[k].spaces[i], t) ==>
              c.floor < k + 1 || (c.floor == k + 1 && c.space <= floors[k].spaces[i].spaceNumber)
  {
    forall k, i | 0 <= k < |floors| && 0 <= i < |floors[k].spaces| && IsFree(floors[k].spaces[i], t)
      ensures c.floor < k + 1 || (c.floor == k + 1 && c.space <= floors[k].spaces[i].spaceNumber)
    {
      NoRoomBefore(floors, t, k0, k, i);
    }
  }

  /** No floor before the first floor with room has a free slot of the category. */
  lemma NoRoomBefore(floors: seq<Floors.Floor>, t: VehicleType, k0: int, k: int, i: int)
    requires FirstRoom(floors, t, k0)
    requires 0 <= k < |floors| && 0 <= i < |floors[k].spaces| && IsFree(floors[k].spaces[i], t)
    ensures k0 <= k
  {
    assert Floors.IsSpaceAvailable(floors[k], t);
  }

  /**
   * The layout that `LotParkLowest` assumes holds of every lot reachable from
   * the constructor: a fresh lot has it, and park and release keep it.
   */
  lemma LayoutReachable(n: int, k: int, lot: ParkingLot, t: VehicleType, v: Vehicle)
    ensures Numbered(NewLot(n, k)) && AllLaidOut(NewLot(n, k), Floors.Max0(k))
    ensures Numbered(lot) && AllLaidOut(lot, Floors.Max0(k)) ==>
              Numbered(Park(lot, t, v).lot) && AllLaidOut(Park(lot, t, v).lot, Floors.Max0(k))
    ensures Lots.Valid(lot) && Numbered(lot) && AllLaidOut(lot, Floors.Max0(k)) ==>
              Numbered(Remove(lot, v)) && AllLaidOut(Remove(lot, v), Floors.Max0(k))
  {
    if Numbered(lot) && AllLaidOut(lot, Floors.Max0(k)) {
      var p := Park(lot, t, v).lot;
      forall j | 0 <= j < |p.floors|
        ensures Floors.LaidOut(p.floors[j], Floors.Max0(k))
      {
        LaidOutKept(lot.floors[j], p.floors[j], Floors.Max0(k));
      }
      if Lots.Valid(lot) {
        var r := Remove(lot, v);
        forall j | 0 <= j < |r.floors|
          ensures Floors.LaidOut(r.floors[j], Floors.Max0(k))
        {
          LaidOutKept(lot.floors[j], r.floors[j], Floors.Max0(k));
        }
      }
    }
  }

  /** The coordinates a park returns do not depend on which vehicle is parked. */
  lemma ParkSpotIgnoresVehicle(lot: ParkingLot, t: VehicleType, v: Vehicle, w: Vehicle)
    ensures Park(lot, t, v).spot == Park(lot, t, w).spot
  {
  }

  /** The outcome of a run of parks: the final lot and each park's answer, in order. */
  datatype Series = Series(lot: ParkingLot, spots: seq<Option<Coord>>)

  /** Parks the vehicles `vs`, all of category `t`, one after the other. */
  function ParkAll(lot: ParkingLot, t: VehicleType, vs: seq<Vehicle>): (r: Series)
    ensures |r.spots| == |vs|
    decreases |vs|
  {
    if |vs| == 0 then Series(lot, [])
    else
      var p := Park(lot, t, vs[0]);
      var rest := ParkAll(p.lot, t, vs[1..]);
      Series(rest.lot, [p.spot] + rest.spots)
  }

  /**
   * While the lot has at least as many free category-`t` slots as vehicles
   * arriving, every park succeeds and each consumes exactly one slot.
   */
  lemma {:induction false} ParkAllSucceeds(lot: ParkingLot, t: VehicleType, vs: seq<Vehicle>)
    requires FreeCount(lot.floors, t) >= |vs|
    ensures None !in ParkAll(lot, t, vs).spots
    ensures FreeCount(ParkAll(lot, t, vs).lot.floors, t) == FreeCount(lot.floors, t) - |vs|
    decreases |vs|
  {
    if |vs| > 0 {
      FreeCountPositive(lot, t);
      LotParkConsumesOne(lot, t, vs[0], t);
      var p := Park(lot, t, vs[0]);
      var rest := ParkAll(p.lot, t, vs[1..]);
      assert FreeCount(p.lot.floors, t) == FreeCount(lot.floors, t) - 1;
      ParkAllSucceeds(p.lot, t, vs[1..]);
    }
  }

  /**
   * Exhaustion: on a fresh lot of `n` floors with capacity `k`, n·k parks of
   * one category all succeed, after which the lot reports no room for that
   * category and every further park of it returns `None`.
   */
  lemma Exhaustion(n: int, k: int, t: VehicleType, vs: seq<Vehicle>, w: Vehicle)
    requires |vs| == Floors.Max0(n) * Floors.Max0(k)
    ensures None !in ParkAll(NewLot(n, k), t, vs).spots
    ensures !IsParkingAvailable(ParkAll(NewLot(n, k), t, vs).lot, t)
    ensures Park(ParkAll(NewLot(n, k), t, vs).lot, t, w).spot.None?
  {
    NewLotFreeCount(n, k, t);
    ParkAllSucceeds(NewLot(n, k), t, vs);
    FreeCountPositive(ParkAll(NewLot(n, k), t, vs).lot, t);
  }

  /**
   * Parking a vehicle whose registration is parked nowhere and then releasing
   * it restores the lot exactly.
   */
  lemma LotParkThenRemove(lot: ParkingLot, t: VehicleType, v: Vehicle)
    requires Lots.Valid(lot)
    requires !HeldAnywhere(lot, v.registration)
    ensures Remove(Park(lot, t, v).lot, v) == lot
  {
    var room := FindRoom(lot.floors, t);
    if room.Some? {
      var k := room.value;
      var f := lot.floors[k];
      assert !Floors.HoldsAny(f, v.registration);
      FloorParkThenRemove(f, t, v);
      RemoveReplaced(lot, k, Floors.Park(f, t, v).floor, v);
      assert lot.floors[k := f] == lot.floors;
    }
  }

  /**
   * Release acts floor by floor: when no floor of `lot` holds the
   * registration, releasing it from `lot` with floor `k` replaced by `g`
   * only releases it on `g`.
   */
  lemma RemoveReplaced(lot: ParkingLot, k: nat, g: Floors.Floor, v: Vehicle)
    requires Lots.Valid(lot) && k < |lot.floors| && Floors.Valid(g)
    requires !HeldAnywhere(lot, v.registration)
    ensures Lots.Valid(lot.(floors := lot.floors[k := g]))
    ensures Remove(lot.(floors := lot.floors[k := g]), v)
         == lot.(floors := lot.floors[k := Floors.Remove(g, v)])
  {
    var before := lot.(floors := lot.floors[k := g]);
    var after := Remove(before, v);
    forall j | 0 <= j < |lot.floors|
      ensures after.floors[j] == lot.floors[k := Floors.Remove(g, v)][j]
    {
      if j != k {
        assert !Floors.HoldsAny(lot.floors[j], v.registration);
      }
    }
  }

  /**
   * First-fit reuse: park `v`, release it, park `w` of the same category —
   * `w` gets exactly the coordinates `v` had.
   */
  lemma ReuseAfterRelease(lot: ParkingLot, t: VehicleType, v: Vehicle, w: Vehicle)
    requires Lots.Valid(lot)
    requires !HeldAnywhere(lot, v.registration)
    ensures Park(Remove(Park(lot, t, v).lot, v), t, w).spot == Park(lot, t, v).spot
  {
    LotParkThenRemove(lot, t, v);
    ParkSpotIgnoresVehicle(lot, t, v, w);
  }

  /**
   * Releasing a vehicle whose registration is held by exactly one slot frees
   * that slot and changes nothing else; the registration is then parked
   * nowhere, so a second release is a no-op.
   */
  lemma RemoveFreesOnlyItsSpace(lot: ParkingLot, v: Vehicle, k: nat, i: nat)
    requires Lots.Valid(lot)
    requires k < |lot.floors| && i < |lot.floors[k].spaces|
    requires Holds(lot.floors[k].spaces[i], v.registration)
    requires forall k', i' :: (0 <= k' < |lot.floors| && 0 <= i' < |lot.floors[k'].spaces|
                               && Holds(lot.floors[k'].spaces[i'], v.registration)) ==> k' == k && i' == i
    ensures Remove(lot, v).floors
         == lot.floors[k := lot.floors[k].(spaces := lot.floors[k].spaces[i := Vacate(lot.floors[k].spaces[i])])]
    ensures !HeldAnywhere(Remove(lot, v), v.registration)
    ensures Remove(Remove(lot, v), v) == Remove(lot, v)
  {
    var f := lot.floors[k];
    var expected := lot.floors[k := f.(spaces := f.spaces[i := Vacate(f.spaces[i])])];
    var after := Remove(lot, v);
    assert Floors.FirstHolder(f.spaces, v.registration, i);
    forall j | 0 <= j < |lot.floors|
      ensures after.floors[j] == expected[j]
    {
      if j != k {
        assert !Floors.HoldsAny(lot.floors[j], v.registration);
      }
    }
    assert after.floors == expected;
    forall j | 0 <= j < |after.floors|
      ensures !Floors.HoldsAny(after.floors[j], v.registration)
    {
      if j == k {
        forall i' | 0 <= i' < |after.floors[k].spaces|
          ensures !Holds(after.floors[k].spaces[i'], v.registration)
        {
          if i' != i {
            assert after.floors[k].spaces[i'] == f.spaces[i'];
          }
        }
      } else {
        assert !Floors.HoldsAny(lot.floors[j], v.registration);
      }
    }
  }
}
