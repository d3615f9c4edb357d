# Parking lot allocation engine, modelled in Dafny

This project models the space-allocation core of a small multi-floor parking
lot written in Java (`src/Main.java`). It covers the `VehicleSpace`, `Floor`
and `ParkingLot` classes together with `VehicleType` and `Vehicle`. The lot
holds floors numbered 1..N. Each floor holds K slots of each vehicle category
(bike, car, bus). A park request takes the first free slot of the category,
scanning floors in order and slots in construction order. A release frees the
first slot on every floor whose occupant has the given registration number.

The state is a value. A slot is the `Spaces.VehicleSpace` record, a floor is a
`seq` of slots (`Floors.Floor`), and a lot is a `seq` of floors
(`Lots.ParkingLot`). Every operation is a pure function. Park returns the new
state together with an `Option<Coord>`, where `None` stands for the Java
`null` and `Coord` is the (floor number, space number) pair a caller reads off
the returned slot.

Files:
- `wrappers.dfy`: `Option`.
- `spaces.dfy`: categories, vehicles, a single slot and its occupancy invariant.
- `floors.dfy`: floor construction, the availability scan, first-fit park and release.
- `floor_facts.dfy`: free counts, construction layout and per-floor park/release properties.
- `lots.dfy`: lot construction, availability, park across floors and release on every floor.
- `lot_facts.dfy`: lot-wide counts, fresh-lot availability, lowest coordinate, exhaustion and release round trips.
- `scenario.dfy`: the demonstration run of the entry point, as a lemma.

Modelling decisions:
- Construction follows the code, which interleaves the categories per index.
  For i in 1..K it appends BIKE i, CAR i, BUS i (src/Main.java:139-143). So
  slot j of a floor has category `[Bike, Car, Bus][j % 3]` and space number
  `j / 3 + 1`; the slots are not grouped per category (all bikes, then all
  cars, then all buses). Within a category,
  list order is still ascending space number (`FloorFacts.NewFloorNumbers`).
- The constructors take Java `int`s, and a negative count builds nothing. So
  the fresh-lot availability claim is "N > 0 and K > 0". For non-negative
  arguments that is the same as N·K > 0 (`LotFacts.NewLotAvailable` states both).
- `VehicleSpace.parkVehicle` does not check that the slot is free, and
  `Spaces.Occupy` models that as written. `Floors.Park` calls it only on the
  first-fit slot, which is free.
- `Floor.removeVehicle` reads the occupant of every unavailable slot without a
  null check. `Spaces.Holds` therefore requires the occupancy invariant, and
  every operation is proved to preserve that invariant. This is the argument
  that the read never meets a null.
- Registrations are compared as strings (`seq<char>` equality), matching `String.equals`.

## Model

| member | source | states |
|---|---|---|
| Spaces.NewSpace | src/Main.java:92-98 | A new slot is free, holds no vehicle (so it satisfies the occupancy invariant), and carries the given floor number, space number and category. |
| Spaces.Occupy | src/Main.java:120-123 | Parking keeps the slot's identity. It leaves the slot occupied by exactly `v` with the invariant holding. On a free slot, vacating afterwards gives back the original slot. |
| Spaces.Vacate | src/Main.java:125-128 | Releasing keeps the slot's identity and leaves it free, empty and matching no registration. Vacating an already-free slot changes nothing (idempotence). |
| Floors.NewFloor | src/Main.java:136-144 | A floor built with capacity K has 3·K slots. All are free and carry the floor's number. Slot j has space number j/3+1 and category Bike/Car/Bus by j mod 3. |
| FloorFacts.NewFloorNumbers | src/Main.java:139-143 | For each category, the space numbers of a fresh floor's slots of that category are exactly 1..K, in ascending list order. |
| FloorFacts.NewFloorFreeCount | src/Main.java:136-144 | A fresh floor has exactly K free slots of each category. |
| FloorFacts.NewFloorAvailable | src/Main.java:136-161 | A fresh floor reports room for a category iff its capacity is positive. |
| Floors.IsSpaceAvailable | src/Main.java:154-161 | The scan returns true iff some slot of the floor is free and of the requested category. |
| FloorFacts.CountFreePositive | src/Main.java:154-161 | A floor has a free slot of a category iff its free count for that category is positive. |
| Floors.FirstFree | src/Main.java:164-169 | The park search returns the index of the first free slot of the category, with none free before it. It returns nothing iff no slot of the category is free. |
| Floors.Park | src/Main.java:163-171 | The result is `None` iff the floor has no room, and then the floor is unchanged. Otherwise only the first-fit slot changes: it is occupied by `v`, and its coordinates are returned. Layout and occupancy invariant are preserved. |
| FloorFacts.FloorParkLowest | src/Main.java:163-169 | On a floor laid out by the constructor and with room for the category, the park succeeds. It returns this floor's number and the lowest space number among the free slots of the category. |
| FloorFacts.LaidOutAscending | src/Main.java:139-143 | In the constructor's layout, slots of the same category appear in strictly ascending space-number order. |
| FloorFacts.FloorParkConsumesOne | src/Main.java:163-169 | On a floor with room for the category, the park succeeds. It lowers the floor's free count of that category by exactly one and leaves the other categories' counts unchanged. |
| Floors.FindHolder | src/Main.java:174-179 | The release search returns the first occupied slot whose occupant has the registration, with no earlier match. It returns nothing iff no slot holds it. |
| Floors.Remove | src/Main.java:173-180 | Release vacates exactly the first slot holding the registration and nothing else. A floor where no slot holds it is unchanged. Layout and occupancy invariant are preserved. |
| FloorFacts.FloorParkThenRemove | src/Main.java:163-180 | Parking a vehicle whose registration is absent from the floor, then releasing it, restores the floor exactly. |
| Lots.NewLot | src/Main.java:189-196 | A new lot has max(N,0) floors. Floor j (0-based) is the floor built with number j+1 and capacity K, so floors are numbered 1..N in order. |
| LotFacts.NewLotFreeCount | src/Main.java:189-196 | A fresh lot has exactly max(N,0)·max(K,0) free slots of each category. |
| LotFacts.NewLotAvailable | src/Main.java:189-213 | A fresh lot reports room for any category iff N > 0 and K > 0. For non-negative arguments that is the same as N·K > 0. |
| Lots.IsParkingAvailable | src/Main.java:206-213 | Returns true iff some floor has a free slot of the category. |
| LotFacts.FreeCountPositive | src/Main.java:206-213 | The lot reports room for a category iff its lot-wide free count for that category is positive. |
| Lots.FindRoom | src/Main.java:216-220 | Returns the first floor that reports room for the category, with no earlier floor reporting room. Returns nothing iff no floor has room. |
| Lots.Park | src/Main.java:215-222 | The result is `None` iff the lot has no room, and then the lot is unchanged. Otherwise only the first floor with room changes, exactly as that floor's park changes it, and that floor's coordinates are returned. Topology, numbering and occupancy invariant are preserved. |
| LotFacts.LotParkConsumesOne | src/Main.java:215-222 | In a lot with room for the category, the park succeeds. It lowers the lot-wide free count of that category by exactly one and leaves the other categories' counts unchanged. |
| LotFacts.LayoutReachable | src/Main.java:136-144 | A fresh lot is numbered 1..N with every floor in the constructor's layout; park and release keep both, so `LotParkLowest` applies to every reachable lot. |
| LotFacts.LotParkLowest | src/Main.java:215-222 | In a lot laid out by the constructor and with room for the category, the park succeeds. It returns the lexicographically lowest (floor, space) among all free slots of the category. |
| LotFacts.ParkAllSucceeds | src/Main.java:215-222 | Parking m vehicles of a category when at least m slots of it are free never returns `None`. The free count drops by exactly m. |
| LotFacts.Exhaustion | src/Main.java:189-222 | On a fresh N-by-K lot, N·K parks of one category all succeed. Afterwards the lot reports no room for that category and every further park returns `None`. |
| Lots.Remove | src/Main.java:224-228 | Every floor applies its own release. A registration parked nowhere leaves the lot unchanged. Topology, numbering and occupancy invariant are preserved. |
| LotFacts.RemoveReplaced | src/Main.java:224-228 | When no floor holds the registration, releasing from a lot with one floor replaced acts only on that floor. |
| LotFacts.RemoveFreesOnlyItsSpace | src/Main.java:224-228 | If exactly one slot holds the registration, release frees that slot and changes nothing else. Afterwards nothing holds it, so a second release is a no-op. |
| LotFacts.LotParkThenRemove | src/Main.java:215-228 | Parking a vehicle whose registration is parked nowhere, then releasing it, restores the lot exactly. |
| LotFacts.ReuseAfterRelease | src/Main.java:215-228 | park(t, v), then release(v), then park(t, w) gives w the same coordinates that v received. |
| Scenario.Demo | src/Main.java:12-26 | In any fresh lot with at least one floor and capacity at least 2, two cars, whatever their registrations, get floor 1 spaces 1 and 2. After the first leaves, the lot still has car room. A third car gets floor 1 space 1. |

## Left out

- The `Main` class (src/Main.java:4-56) is a console demonstration that only calls the API and prints text. Its call sequence is stated as `Scenario.Demo`. The printing is not modelled.
- `CostStrategy` / `FlatCostStrategy` (src/Main.java:231-251) are left out. They compute pricing with `double` arithmetic over a hash-map lookup, are independent of allocation, and involve floating point.
- `Vehicle.color` and the getters (`getNumberOfFloors`, `getCapacityPerType`, `getFloorNumber`, `getVehicleSpaces`, the `VehicleSpace` getters) are left out. They are descriptive, and the getters are field reads of the datatypes.
- Java object identity and aliasing are left out: a park returns the slot object, and the model returns its coordinates instead.
- `null` vehicle arguments are not modelled. Parking `null` would leave an unavailable slot with no occupant and break the invariant. Every `Vehicle` here is a value.
- `null` `VehicleType` arguments are not modelled; `Spaces.VehicleType` has only the three categories. Every slot has a non-null category, so the `getType() == type` tests (src/Main.java:156, 165) never match `null`. `Floor.isSpaceAvailable(null)` and `ParkingLot.isParkingAvailable(null)` answer false (src/Main.java:160, 212). Both `parkVehicle(null, v)` return `null` (src/Main.java:170, 221). Nothing throws.
- `null` registration strings are not modelled; `Spaces.Vehicle` always carries a string. Java accepts `new Vehicle(null, ...)` (src/Main.java:63-66). Once such a vehicle is parked, a later `Floor.removeVehicle` whose scan reaches its slot before a match throws `NullPointerException` at `getRegistrationNumber().equals(...)` (src/Main.java:175), and `ParkingLot.removeVehicle` then stops before the remaining floors (src/Main.java:225-227). The model has no such error path.
- Memory limits and 32-bit `int` loop counters are not modelled. A constructor called with a huge floor count or capacity (up to `Integer.MAX_VALUE`) fails with `OutOfMemoryError`, since every iteration adds to an `ArrayList` (src/Main.java:140-142, 194), which cannot hold more than `Integer.MAX_VALUE` entries; it fails at or before the point where `i++` would wrap. The model builds the unbounded count.
- Concurrency is not modelled; the source is single-threaded.
- LotFacts.RemoveFreesOnlyItsSpace: stated only for a registration held by exactly one slot. When several slots share a registration, the lot frees the first holder on each floor. `Lots.Remove` and `Floors.Remove` state that per-floor behaviour, but no lemma counts the slots freed in that case.
