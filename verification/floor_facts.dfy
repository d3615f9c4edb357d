/**
 * Properties of a single floor: what construction produces, how many free
 * slots of each category there are, and how park and release change that.
 */
module FloorFacts {
  import opened Wrappers
  import opened Spaces
  import opened Floors

  /** Number of free slots of category `t` in `s`. */
  function CountFree(s: seq<VehicleSpace>, t: VehicleType): nat
  {
    if |s| == 0 then 0 else (if IsFree(s[0], t) then 1 else 0) + CountFree(s[1..], t)
  }

  /** The space numbers of the category-`t` slots of `s`, in list order. */
  function NumbersOf(s: seq<VehicleSpace>, t: VehicleType): seq<int>
  {
    if |s| == 0 then []
    else (if s[0].kind == t then [s[0].spaceNumber] else []) + NumbersOf(s[1..], t)
  }

  /** The sequence 1, 2, ..., k. */
  function Ascending(k: nat): seq<int>
  {
    seq(k, i => i + 1)
  }

  lemma {:induction false} CountFreeAppend(a: seq<VehicleSpace>, b: seq<VehicleSpace>, t: VehicleType)
    ensures CountFree(a + b, t) == CountFree(a, t) + CountFree(b, t)
    decreases |a|
  {
    if |a| == 0 {
      assert a + b == b;
    } else {
      assert (a + b)[1..] == a[1..] + b;
      CountFreeAppend(a[1..], b, t);
    }
  }

  /** There is a free category-`t` slot exactly when the count is positive. */
  lemma {:induction false} CountFreePositive(s: seq<VehicleSpace>, t: VehicleType)
    ensures CountFree(s, t) > 0 <==> exists i :: 0 <= i < |s| && IsFree(s[i], t)
    decreases |s|
  {
    if |s| > 0 {
      CountFreePositive(s[1..], t);
      if !IsFree(s[0], t) && CountFree(s, t) == 0 {
        forall i | 0 <= i < |s|
          ensures !IsFree(s[i], t)
        {
          if i > 0 {
            assert s[i] == s[1..][i - 1];
          }
        }
      }
      if exists i :: 0 <= i < |s| && IsFree(s[i], t) {
        var i :| 0 <= i < |s| && IsFree(s[i], t);
        if i > 0 {
          assert s[1..][i - 1] == s[i];
        }
      }
    }
  }

  /** Replacing one slot changes the free count by the difference the slot makes. */
  lemma {:induction false} CountFreeUpdate(s: seq<VehicleSpace>, i: nat, x: VehicleSpace, t: VehicleType)
    requires i < |s|
    ensures CountFree(s[i := x], t)
         == CountFree(s, t) - (if IsFree(s[i], t) then 1 else 0) + (if IsFree(x, t) then 1 else 0)
    decreases i
  {
    if i == 0 {
      assert s[i := x][1..] == s[1..];
    } else {
      assert s[i := x][1..] == s[1..][i - 1 := x];
      CountFreeUpdate(s[1..], i - 1, x, t);
    }
  }

  lemma {:induction false} NumbersOfAppend(a: seq<VehicleSpace>, b: seq<VehicleSpace>, t: VehicleType)
    ensures NumbersOf(a + b, t) == NumbersOf(a, t) + NumbersOf(b, t)
    decreases |a|
  {
    if |a| == 0 {
      assert a + b == b;
    } else {
      var head := if a[0].kind == t then [a[0].spaceNumber] else [];
      assert (a + b)[0] == a[0];
      assert (a + b)[1..] == a[1..] + b;
      assert NumbersOf(a + b, t) == head + NumbersOf(a[1..] + b, t);
      NumbersOfAppend(a[1..], b, t);
      assert NumbersOf(a, t) == head + NumbersOf(a[1..], t);
      assert head + (NumbersOf(a[1..], t) + NumbersOf(b, t))
          == (head + NumbersOf(a[1..], t)) + NumbersOf(b, t);
    }
  }

  /** Each constructor row holds one free slot of every category, numbered `i`. */
  lemma RowContents(n: int, i: int, t: VehicleType)
    ensures CountFree(Row(n, i), t) == 1
    ensures NumbersOf(Row(n, i), t) == [i]
  {
    var r := Row(n, i);
    var r1, r2 := r[1..], r[1..][1..];
    assert r2[1..] == [];
    assert CountFree(r, t) == (if IsFree(r[0], t) then 1 else 0) + CountFree(r1, t);
    assert CountFree(r1, t) == (if IsFree(r1[0], t) then 1 else 0) + CountFree(r2, t);
    assert CountFree(r2, t) == (if IsFree(r2[0], t) then 1 else 0) + CountFree(r2[1..], t);
    assert NumbersOf(r, t) == (if r[0].kind == t then [i] else []) + NumbersOf(r1, t);
    assert NumbersOf(r1, t) == (if r1[0].kind == t then [i] else []) + NumbersOf(r2, t);
    assert NumbersOf(r2, t) == (if r2[0].kind == t then [i] else []) + NumbersOf(r2[1..], t);
  }

  /** A floor built with capacity `k` has `k` free slots of each category. */
  lemma {:induction false} NewFloorFreeCount(n: int, k: int, t: VehicleType)
    ensures CountFree(NewFloor(n, k).spaces, t) == Max0(k)
    decreases Max0(k)
  {
    if k > 0 {
      NewFloorFreeCount(n, k - 1, t);
      CountFreeAppend(Build(n, k - 1), Row(n, k), t);
      RowContents(n, k, t);
    }
  }

  /**
   * In a floor built with capacity `k`, the slots of each category carry the
   * space numbers 1..k, in ascending list order.
   */
  lemma {:induction false} NewFloorNumbers(n: int, k: int, t: VehicleType)
    ensures NumbersOf(NewFloor(n, k).spaces, t) == Ascending(Max0(k))
    decreases Max0(k)
  {
    if k > 0 {
      NewFloorNumbers(n, k - 1, t);
      NumbersOfAppend(Build(n, k - 1), Row(n, k), t);
      RowContents(n, k, t);
      assert Ascending(k - 1) + [k] == Ascending(k);
    }
  }

  /** A fresh floor has room for category `t` exactly when its capacity is positive. */
  lemma NewFloorAvailable(n: int, k: int, t: VehicleType)
    ensures IsSpaceAvailable(NewFloor(n, k), t) <==> k > 0
  {
    NewFloorFreeCount(n, k, t);
    CountFreePositive(NewFloor(n, k).spaces, t);
  }

  /** Park and release keep the constructor's layout. */
  lemma LaidOutKept(f: Floor, g: Floor, k: nat)
    requires LaidOut(f, k)
    requires g.number == f.number && SameLayout(f.spaces, g.spaces)
    ensures LaidOut(g, k)
  {
  }

  /** Slots of one category appear in strictly ascending space-number order. */
  lemma LaidOutAscending(f: Floor, k: nat, i: int, j: int)
    requires LaidOut(f, k)
    requires 0 <= i < j < |f.spaces|
    requires f.spaces[i].kind == f.spaces[j].kind
    ensures f.spaces[i].spaceNumber < f.spaces[j].spaceNumber
  {
    assert Kinds[i % 3] == Kinds[j % 3];
    assert i % 3 == j % 3;
    assert i == 3 * (i / 3) + i % 3;
    assert j == 3 * (j / 3) + j % 3;
  }

  /**
   * On a floor laid out by the constructor, a successful park uses the
   * lowest-numbered free slot of the requested category.
   */
  lemma FloorParkLowest(f: Floor, k: nat, t: VehicleType, v: Vehicle)
    requires LaidOut(f, k)
    requires IsSpaceAvailable(f, t)
    ensures Park(f, t, v).spot.Some?
    ensures Park(f, t, v).spot.value.floor == f.number
    ensures forall j :: 0 <= j < |f.spaces| && IsFree(f.spaces[j], t) ==>
              Park(f, t, v).spot.value.space <= f.spaces[j].spaceNumber
  {
    var r := Park(f, t, v);
    var i :| FirstFit(f.spaces, t, i)
             && r.floor.spaces == f.spaces[i := Occupy(f.spaces[i], v)]
             && r.spot.value == CoordOf(f.spaces[i]);
    forall j | 0 <= j < |f.spaces| && IsFree(f.spaces[j], t)
      ensures r.spot.value.space <= f.spaces[j].spaceNumber
    {
      if j != i {
        LaidOutAscending(f, k, i, j);
      }
    }
  }

  /**
   * A successful park consumes exactly one free slot of the requested
   * category and leaves the free count of every other category unchanged.
   */
  lemma FloorParkConsumesOne(f: Floor, t: VehicleType, v: Vehicle, u: VehicleType)
    requires IsSpaceAvailable(f, t)
    ensures Park(f, t, v).spot.Some?
    ensures CountFree(Park(f, t, v).floor.spaces, u)
         == CountFree(f.spaces, u) - (if u == t then 1 else 0)
  {
    var r := Park(f, t, v);
    var i :| FirstFit(f.spaces, t, i)
             && r.floor.spaces == f.spaces[i := Occupy(f.spaces[i], v)]
             && r.spot.value == CoordOf(f.spaces[i]);
    CountFreeUpdate(f.spaces, i, Occupy(f.spaces[i], v), u);
  }

  /**
   * Parking a vehicle whose registration is not on the floor and then
   * releasing it restores the floor exactly.
   */
  lemma FloorParkThenRemove(f: Floor, t: VehicleType, v: Vehicle)
    requires Floors.Valid(f)
    requires !HoldsAny(f, v.registration)
    ensures Remove(Park(f, t, v).floor, v) == f
  {
    var r := Park(f, t, v);
    if r.spot.Some? {
      var i :| FirstFit(f.spaces, t, i)
               && r.floor.spaces == f.spaces[i := Occupy(f.spaces[i], v)]
               && r.spot.value == CoordOf(f.spaces[i]);
      assert FirstHolder(r.floor.spaces, v.registration, i);
      assert f.spaces[i := Occupy(f.spaces[i], v)][i := f.spaces[i]] == f.spaces;
    }
  }
}
