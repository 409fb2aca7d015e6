/**
 Vehicle placement: `add_vehicle` registers one vehicle with the next
 sequential id and puts it on the first free cell at or after the requested
 one in its lane; `init_vehiculos_round_robin` spreads vehicles over the grid
 lane by lane.
 */
module Placement {
  import opened Grid
  import opened Crossing

  /** Some cell of `lane` is free. */
  predicate LaneHasFree(I: Intersection, lane: int)
    requires Shaped(I) && 0 <= lane < I.lanes
  {
    exists q :: 0 <= q < I.len && I.occ[CellAt(I, lane, q)] == Free
  }

  /**
   `p` is the first free cell met when scanning `lane` forward from `pos`,
   wrapping around the ring.
   */
  predicate FirstFreeFrom(I: Intersection, lane: int, pos: int, p: int)
    requires Shaped(I) && 0 <= lane < I.lanes && 0 <= pos < I.len
  {
    exists d :: 0 <= d < I.len && p == Ahead(pos, d, I.len)
                && I.occ[CellAt(I, lane, p)] == Free
                && forall j :: 0 <= j < d ==> I.occ[CellAt(I, lane, Ahead(pos, j, I.len))] != Free
  }

  /** A scan that met only occupied cells for a whole lap proves the lane full. */
  lemma FullLane(I: Intersection, lane: int, pos: int)
    requires Shaped(I) && InGrid(I, lane, pos)
    requires forall j :: 0 <= j < I.len ==> I.occ[CellAt(I, lane, Ahead(pos, j, I.len))] != Free
    ensures !LaneHasFree(I, lane)
  {
    if q :| 0 <= q < I.len && I.occ[CellAt(I, lane, q)] == Free {
      var j := RingCovered(pos, q, I.len);
      assert false;
    }
  }

  /**
   A scan that stopped at the free cell `turns` steps ahead, having passed only
   occupied cells, stopped within the first lap, at the first free cell.
   */
  lemma ScanFound(I: Intersection, lane: int, pos: int, p: int, turns: int)
    requires Shaped(I) && InGrid(I, lane, pos) && 0 <= turns <= I.len
    requires p == Ahead(pos, turns, I.len) && I.occ[CellAt(I, lane, p)] == Free
    requires forall j :: 0 <= j < turns ==> I.occ[CellAt(I, lane, Ahead(pos, j, I.len))] != Free
    ensures turns < I.len && FirstFreeFrom(I, lane, pos, p)
  {
    if turns == I.len {
      ModAddLen(pos, I.len);
      AheadZero(pos, I.len);
      assert false;
    }
  }

  /**
   A scan that gave up after `L + 1` steps found every cell of the lane
   occupied and stands one cell past the requested one.
   */
  lemma ScanWrapped(I: Intersection, lane: int, pos: int, p: int)
    requires Shaped(I) && InGrid(I, lane, pos)
    requires p == Ahead(pos, I.len + 1, I.len)
    requires forall j :: 0 <= j < I.len ==> I.occ[CellAt(I, lane, Ahead(pos, j, I.len))] != Free
    ensures !LaneHasFree(I, lane) && p == (pos + 1) % I.len
  {
    FullLane(I, lane, pos);
    ModAddLen(pos + 1, I.len);
  }

  /**
   The cell `add_vehicle` settles on: the requested one if it is free,
   otherwise the first free one scanning forward with wrap-around.  The scan
   gives up after going once round the lane, leaving `p` one cell past the
   requested one, on an occupied cell.
   */
  method FindFree(I: Intersection, lane: int, pos: int) returns (p: int)
    requires Shaped(I) && InGrid(I, lane, pos)
    ensures 0 <= p < I.len
    ensures I.occ[CellAt(I, lane, pos)] == Free ==> p == pos
    ensures LaneHasFree(I, lane) ==> FirstFreeFrom(I, lane, pos, p)
    ensures !LaneHasFree(I, lane) ==> p == (pos + 1) % I.len
  {
    var L := I.len;
    p := pos;
    AheadZero(pos, L);
    if I.occ[CellAt(I, lane, pos)] == Free {
      return;
    }
    var turns := 0;
    while I.occ[CellAt(I, lane, p)] != Free
      invariant 0 <= turns <= L && 0 <= p < L
      invariant p == Ahead(pos, turns, L)
      invariant forall j :: 0 <= j < turns ==> I.occ[CellAt(I, lane, Ahead(pos, j, L))] != Free
      decreases L - turns
    {
      ModStep(pos + turns, L);
      p := (p + 1) % L;
      turns := turns + 1;
      if turns > L {
        break;
      }
    }
    if turns > L {
      ScanWrapped(I, lane, pos, p);
    } else {
      ScanFound(I, lane, pos, p, turns);
    }
  }

  /**
   What `add_vehicle` writes once it has settled on cell `p`: vehicle `id` is
   appended to the registry and named in the occupancy array at `(lane, p)`.
   Registering the next id on a free cell of a consistent grid with room in
   the registry keeps the grid consistent and adds exactly that cell to the
   occupied ones.
   */
  function Register(I: Intersection, lane: int, p: int, id: int): (r: Intersection)
    requires Shaped(I) && InGrid(I, lane, p)
    ensures Shaped(r) && r.len == I.len && r.lanes == I.lanes && r.cap == I.cap && r.lights == I.lights
    ensures |r.vehicles| == |I.vehicles| + 1 && r.vehicles[|I.vehicles|] == Vehicle(id, p, lane)
    ensures forall i :: 0 <= i < |I.vehicles| ==> r.vehicles[i] == I.vehicles[i]
    ensures r.occ[CellAt(I, lane, p)] == id
    ensures forall k :: 0 <= k < |I.occ| && k != CellAt(I, lane, p) ==> r.occ[k] == I.occ[k]
    ensures Consistent(I) && |I.vehicles| < I.cap && id == |I.vehicles| && I.occ[CellAt(I, lane, p)] == Free ==>
              Consistent(r) && Occupied(r) == Occupied(I) + {CellAt(I, lane, p)}
  {
    var r := I.(occ := I.occ[CellAt(I, lane, p) := id], vehicles := I.vehicles + [Vehicle(id, p, lane)]);
    assert Consistent(I) && |I.vehicles| < I.cap && id == |I.vehicles| && I.occ[CellAt(I, lane, p)] == Free ==>
             Consistent(r) && Occupied(r) == Occupied(I) + {CellAt(I, lane, p)} by {
      if Consistent(I) && |I.vehicles| < I.cap && id == |I.vehicles| && I.occ[CellAt(I, lane, p)] == Free {
        forall i | 0 <= i < id ensures r.occ[CellOf(r, i)] == i {
          assert CellOf(r, i) == CellOf(I, i);
        }
      }
    }
    r
  }

  /**
   `add_vehicle` as written.  With the registry full it returns -1 and changes
   nothing.  Otherwise the new vehicle gets the next id (the old vehicle count)
   in the requested lane and is registered at the cell `FindFree` settles on.
   When the lane is entirely occupied that cell belongs to another vehicle,
   whose slot is overwritten; the grid invariant is kept whenever the lane has
   a free cell.
   */
  method AddVehicle(I: Intersection, lane: int, pos: int) returns (r: Intersection, id: int)
    requires WellFormed(I) && InGrid(I, lane, pos)
    ensures |I.vehicles| >= I.cap ==> id == -1 && r == I
    ensures |I.vehicles| < I.cap ==>
              && id == |I.vehicles|
              && |r.vehicles| == id + 1
              && 0 <= r.vehicles[id].pos < I.len
              && r == Register(I, lane, r.vehicles[id].pos, id)
              && WellFormed(r)
    ensures |I.vehicles| < I.cap && I.occ[CellAt(I, lane, pos)] == Free ==> r.vehicles[id].pos == pos
    ensures |I.vehicles| < I.cap && LaneHasFree(I, lane) ==> FirstFreeFrom(I, lane, pos, r.vehicles[id].pos)
    ensures |I.vehicles| < I.cap && !LaneHasFree(I, lane) ==> r.vehicles[id].pos == (pos + 1) % I.len
    ensures |I.vehicles| < I.cap && Consistent(I) && LaneHasFree(I, lane) ==> Consistent(r)
  {
    if |I.vehicles| >= I.cap {
      return I, -1;
    }
    id := |I.vehicles|;
    var p := FindFree(I, lane, pos);
    r := Register(I, lane, p, id);
  }

  /**
   Registering a vehicle in a full lane, as `add_vehicle` does after its scan
   gives up, breaks the grid invariant: the cell it writes belonged to another
   vehicle, which the occupancy array no longer names.
   */
  lemma FullLaneBreaksInvariant(I: Intersection, lane: int, pos: int)
    requires Consistent(I) && InGrid(I, lane, pos) && |I.vehicles| < I.cap && !LaneHasFree(I, lane)
    ensures !Consistent(Register(I, lane, (pos + 1) % I.len, |I.vehicles|))
  {
    var p := (pos + 1) % I.len;
    var k := CellAt(I, lane, p);
    var w := I.occ[k];
    var r := Register(I, lane, p, |I.vehicles|);
    assert r.vehicles[w] == I.vehicles[w] && CellOf(r, w) == k;
    assert r.occ[k] != w;
  }

  /**
   `add_vehicle` with its evident intent: when the scan finds no free cell in
   the lane the vehicle is not registered and -1 is returned, as when the
   registry is full.  It then preserves the grid invariant on every input.
   */
  method AddVehicleChecked(I: Intersection, lane: int, pos: int) returns (r: Intersection, id: int)
    requires WellFormed(I) && InGrid(I, lane, pos)
    ensures id == -1 <==> |I.vehicles| >= I.cap || !LaneHasFree(I, lane)
    ensures id == -1 ==> r == I
    ensures id != -1 ==>
              && id == |I.vehicles|
              && |r.vehicles| == id + 1
              && 0 <= r.vehicles[id].pos < I.len
              && r == Register(I, lane, r.vehicles[id].pos, id)
              && FirstFreeFrom(I, lane, pos, r.vehicles[id].pos)
    ensures id != -1 && I.occ[CellAt(I, lane, pos)] == Free ==> r.vehicles[id].pos == pos
    ensures WellFormed(r)
    ensures Consistent(I) ==> Consistent(r)
  {
    if |I.vehicles| >= I.cap {
      return I, -1;
    }
    var p := FindFree(I, lane, pos);
    if I.occ[CellAt(I, lane, p)] != Free {
      return I, -1;
    }
    r, id := AddVehicle(I, lane, pos);
  }

  /** Number of vehicles `init_vehiculos_round_robin` asks for: `min(N, numCarriles * L)`. */
  function Requested(I: Intersection, n: int): int
  {
    if n > I.lanes * I.len then I.lanes * I.len else n
  }

  /** Lane of the `i`-th round-robin vehicle. */
  function RoundRobinLane(I: Intersection, i: int): int
    requires I.lanes > 0
  {
    i % I.lanes
  }

  /** Position of the `i`-th round-robin vehicle. */
  function RoundRobinPos(I: Intersection, i: int): int
    requires I.lanes > 0 && I.len > 0
  {
    (i / I.lanes) % I.len
  }

  /**
   The round-robin cells of the first `numCarriles * L` vehicles are pairwise
   distinct, so on an empty grid every placement finds its cell free.
   */
  lemma RoundRobinDistinct(I: Intersection, i: int, j: int)
    requires Shaped(I) && I.lanes > 0 && 0 <= i < I.lanes * I.len && 0 <= j < I.lanes * I.len && i != j
    ensures RoundRobinLane(I, i) != RoundRobinLane(I, j) || RoundRobinPos(I, i) != RoundRobinPos(I, j)
  {
    MulIsProduct(I.len, I.lanes);
    IdxDecode(i, I.lanes, I.len);
    IdxDecode(j, I.lanes, I.len);
    IdxRoundTrip(0, i / I.lanes, I.len);
    IdxRoundTrip(0, j / I.lanes, I.len);
  }

  /** A grid with no vehicle and every cell free. */
  predicate Empty(I: Intersection)
  {
    WellFormed(I) && |I.vehicles| == 0 && forall k :: 0 <= k < |I.occ| ==> I.occ[k] == Free
  }

  /**
   `init_vehiculos_round_robin` on a freshly initialised intersection, placing
   with `add_vehicle`; every requested cell is still free when it is placed,
   so the full-lane path is never taken.  Vehicle `i` is placed at lane `i % numCarriles`, position `(i / numCarriles) % L`,
   for `min(N, numCarriles * L)` vehicles or until the registry is full, and
   the grid invariant holds afterwards.
   */
  method InitRoundRobin(I: Intersection, n: int) returns (r: Intersection)
    requires Empty(I)
    ensures Consistent(r)
    ensures r == I.(occ := r.occ, vehicles := r.vehicles)
    ensures Requested(I, n) <= I.cap ==> |r.vehicles| == if n <= 0 then 0 else Requested(I, n)
    ensures Requested(I, n) > I.cap ==> |r.vehicles| == I.cap
    ensures forall i :: 0 <= i < |r.vehicles| ==>
              I.lanes > 0 && r.vehicles[i] == Vehicle(i, RoundRobinPos(I, i), RoundRobinLane(I, i))
  {
    var count := Requested(I, n);
    r := I;
    var i := 0;
    assert Consistent(r);
    while i < count
      invariant 0 <= i && (count >= 0 ==> i <= count) && (count < 0 ==> i == 0)
      invariant Consistent(r)
      invariant r == I.(occ := r.occ, vehicles := r.vehicles)
      invariant |r.vehicles| == if i <= I.cap then i else I.cap
      invariant forall j :: 0 <= j < |r.vehicles| ==>
                  I.lanes > 0 && r.vehicles[j] == Vehicle(j, RoundRobinPos(I, j), RoundRobinLane(I, j))
    {
      assert I.lanes > 0;
      var lane := RoundRobinLane(I, i);
      var pos := RoundRobinPos(I, i);
      if |r.vehicles| < r.cap {
        assert |r.vehicles| == i;
        assert r.occ[CellAt(r, lane, pos)] == Free by {
          var k := CellAt(r, lane, pos);
          if r.occ[k] != Free {
            var w := r.occ[k];
            assert CellOf(r, w) == k;
            CellAtInjective(r, r.vehicles[w].lane, r.vehicles[w].pos, lane, pos);
            RoundRobinDistinct(I, w, i);
            assert false;
          }
        }
        assert LaneHasFree(r, lane);
      }
      var id;
      r, id := AddVehicle(r, lane, pos);
      i := i + 1;
    }
  }
}
