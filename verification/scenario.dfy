/**
 * The demonstration run of the source's entry point, stated as a lemma over
 * any fresh lot with at least one floor and two slots per category: two cars
 * park, the first leaves, and a third car takes the slot the first one freed.
 */
module Scenario {
  import opened Wrappers
  import opened Spaces
  import Floors
  import opened Lots
  import opened LotFacts

  /** `lot` with floor 1 carrying the slots `s`. */
  function WithFloor1(lot: ParkingLot, s: seq<VehicleSpace>): ParkingLot
    requires |lot.floors| > 0
  {
    lot.(floors := lot.floors[0 := lot.floors[0].(spaces := s)])
  }

  /** When floor 1 has a free car slot, the lot parks on floor 1, at its first free car slot `i`. */
  lemma ParkOnFloor1(lot: ParkingLot, i: nat, v: Vehicle)
    requires |lot.floors| > 0
    requires Floors.FirstFit(lot.floors[0].spaces, Car, i)
    ensures Park(lot, Car, v)
         == LotPark(WithFloor1(lot, lot.floors[0].spaces[i := Occupy(lot.floors[0].spaces[i], v)]),
                    Some(CoordOf(lot.floors[0].spaces[i])))
  {
    var s := lot.floors[0].spaces;
    assert Floors.IsSpaceAvailable(lot.floors[0], Car);
    var r := FindRoom(lot.floors, Car);
    assert r == Some(0);
    var q := Floors.FirstFree(s, Car);
    Floors.FirstFitUnique(s, Car, i, q.value);
  }

  /** Floor 1 of a fresh lot starts Bike 1, Car 1, Bus 1, Bike 2, Car 2, all free. */
  predicate FreshStart(s: seq<VehicleSpace>)
  {
    && |s| >= 5
    && s[0] == NewSpace(1, 1, Bike) && s[1] == NewSpace(1, 1, Car) && s[2] == NewSpace(1, 1, Bus)
    && s[3] == NewSpace(1, 2, Bike) && s[4] == NewSpace(1, 2, Car)
  }

  /** Every slot of the lot is free. */
  predicate AllFree(lot: ParkingLot)
  {
    forall k', i' :: 0 <= k' < |lot.floors| && 0 <= i' < |lot.floors[k'].spaces| ==>
      lot.floors[k'].spaces[i'].available
  }

  lemma FreshLot(n: int, k: int)
    requires n >= 1 && k >= 2
    ensures |NewLot(n, k).floors| > 0 && FreshStart(NewLot(n, k).floors[0].spaces)
    ensures Lots.Valid(NewLot(n, k)) && AllFree(NewLot(n, k))
  {
    assert NewLot(n, k).floors[0] == Floors.NewFloor(1, k);
  }

  /** The first arrival takes Car 1. */
  lemma FirstArrival(lot: ParkingLot, car1: Vehicle)
    requires |lot.floors| > 0 && FreshStart(lot.floors[0].spaces)
    ensures var s := lot.floors[0].spaces;
            Park(lot, Car, car1) == LotPark(WithFloor1(lot, s[1 := Occupy(s[1], car1)]), Some(Coord(1, 1)))
  {
    var s := lot.floors[0].spaces;
    assert Floors.FirstFit(s, Car, 1);
    ParkOnFloor1(lot, 1, car1);
  }

  /** With Car 1 taken, index 4 (Car 2) is the first free car slot. */
  lemma NextCarSlot(s: seq<VehicleSpace>, car1: Vehicle)
    requires FreshStart(s)
    ensures Floors.FirstFit(s[1 := Occupy(s[1], car1)], Car, 4)
  {
    var s1 := s[1 := Occupy(s[1], car1)];
    assert s1[0] == s[0] && s1[2] == s[2] && s1[3] == s[3] && s1[4] == s[4];
    assert !IsFree(s1[1], Car);
  }

  /** With Car 1 taken, the second arrival takes Car 2. */
  lemma SecondArrival(lot: ParkingLot, car1: Vehicle, car2: Vehicle)
    requires |lot.floors| > 0 && FreshStart(lot.floors[0].spaces)
    ensures var s := lot.floors[0].spaces;
            var s1 := s[1 := Occupy(s[1], car1)];
            Park(WithFloor1(lot, s1), Car, car2)
              == LotPark(WithFloor1(lot, s1[4 := Occupy(s[4], car2)]), Some(Coord(1, 2)))
  {
    var s := lot.floors[0].spaces;
    var s1 := s[1 := Occupy(s[1], car1)];
    var lot1 := WithFloor1(lot, s1);
    NextCarSlot(s, car1);
    ParkOnFloor1(lot1, 4, car2);
    assert WithFloor1(lot1, s1[4 := Occupy(s1[4], car2)]) == WithFloor1(lot, s1[4 := Occupy(s[4], car2)]);
  }

  /**
   * Releasing the first car frees Car 1 and nothing else, even when the
   * second car carries the same registration: Car 1 is the first holder.
   */
  lemma Departure(lot: ParkingLot, car1: Vehicle, car2: Vehicle)
    requires Lots.Valid(lot) && |lot.floors| > 0 && FreshStart(lot.floors[0].spaces)
    requires AllFree(lot)
    ensures var s := lot.floors[0].spaces;
            var s2 := s[1 := Occupy(s[1], car1)][4 := Occupy(s[4], car2)];
            Lots.Valid(WithFloor1(lot, s2))
            && Remove(WithFloor1(lot, s2), car1) == WithFloor1(lot, s2[1 := s[1]])
  {
    var s := lot.floors[0].spaces;
    var s2 := s[1 := Occupy(s[1], car1)][4 := Occupy(s[4], car2)];
    var lot2 := WithFloor1(lot, s2);
    assert Floors.Valid(lot2.floors[0]);
    assert Floors.FirstHolder(s2, car1.registration, 1);
    var r := Remove(lot2, car1);
    forall k' | 1 <= k' < |lot2.floors|
      ensures r.floors[k'] == lot2.floors[k']
    {
      assert !Floors.HoldsAny(lot2.floors[k'], car1.registration);
    }
    assert r.floors[0].spaces == s2[1 := Vacate(s2[1])];
    assert s2[1 := Vacate(s2[1])] == s2[1 := s[1]];
    assert r.floors == WithFloor1(lot, s2[1 := s[1]]).floors;
  }

  /** After the departure, Car 1 is the first free car slot again. */
  lemma Return(lot: ParkingLot, car1: Vehicle, car2: Vehicle, car3: Vehicle)
    requires |lot.floors| > 0 && FreshStart(lot.floors[0].spaces)
    ensures var s := lot.floors[0].spaces;
            var lot3 := WithFloor1(lot, s[1 := Occupy(s[1], car1)][4 := Occupy(s[4], car2)][1 := s[1]]);
            IsParkingAvailable(lot3, Car) && Park(lot3, Car, car3).spot == Some(Coord(1, 1))
  {
    var s := lot.floors[0].spaces;
    var s3 := s[1 := Occupy(s[1], car1)][4 := Occupy(s[4], car2)][1 := s[1]];
    assert Floors.FirstFit(s3, Car, 1);
    ParkOnFloor1(WithFloor1(lot, s3), 1, car3);
  }

  /**
   * Two cars park at floor 1, spaces 1 and 2; after the first leaves, the lot
   * still has room for a car and the third car gets floor 1, space 1 again.
   */
  lemma Demo(n: int, k: int, car1: Vehicle, car2: Vehicle, car3: Vehicle)
    requires n >= 1 && k >= 2
    ensures var p1 := Park(NewLot(n, k), Car, car1);
            var p2 := Park(p1.lot, Car, car2);
            && p1.spot == Some(Coord(1, 1))
            && p2.spot == Some(Coord(1, 2))
            && IsParkingAvailable(Remove(p2.lot, car1), Car)
            && Park(Remove(p2.lot, car1), Car, car3).spot == Some(Coord(1, 1))
  {
    var lot := NewLot(n, k);
    FreshLot(n, k);
    var s := lot.floors[0].spaces;
    var s1 := s[1 := Occupy(s[1], car1)];
    var s2 := s1[4 := Occupy(s[4], car2)];
    FirstArrival(lot, car1);
    assert Park(lot, Car, car1) == LotPark(WithFloor1(lot, s1), Some(Coord(1, 1)));
    SecondArrival(lot, car1, car2);
    assert Park(WithFloor1(lot, s1), Car, car2) == LotPark(WithFloor1(lot, s2), Some(Coord(1, 2)));
    Departure(lot, car1, car2);
    assert Remove(WithFloor1(lot, s2), car1) == WithFloor1(lot, s2[1 := s[1]]);
    Return(lot, car1, car2, car3);
  }
}
