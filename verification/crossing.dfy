/**
 The intersection's state (`Interseccion`): the flat occupancy array, the
 vehicle registry and the two lights, together with the invariants that the
 placement routine establishes and every tick must preserve.
 */
module Crossing {
  import opened Grid
  import opened Lights

  /** `Vehiculo`: vehicle `id` stands at cell `pos` of lane `lane`. */
  datatype Vehicle = Vehicle(id: int, pos: int, lane: int)

  /**
   `Interseccion`.  `occ[Idx(lane, pos, len)]` is the id of the vehicle at
   that cell, or -1 when the cell is free.  `vehicles` holds the registered
   vehicles, so its length is the source's `numVehiculos`; `cap` is
   `capVehiculos`.  `lights` is the `semaforos` array.
   */
  datatype Intersection = Intersection(
    id: int,
    len: int,
    lanes: int,
    occ: seq<int>,
    vehicles: seq<Vehicle>,
    cap: int,
    lights: seq<Light>)

  /** The sentinel for a free cell. */
  const Free := -1

  /** The grid's shape: positive lane length and one occupancy slot per cell. */
  predicate Shaped(I: Intersection)
  {
    I.len > 0 && I.lanes >= 0 && |I.occ| == Mul(I.lanes, I.len)
  }

  predicate InGrid(I: Intersection, lane: int, pos: int)
  {
    0 <= lane < I.lanes && 0 <= pos < I.len
  }

  /** Occupancy slot of cell `(lane, pos)`. */
  function CellAt(I: Intersection, lane: int, pos: int): (k: int)
    requires Shaped(I) && InGrid(I, lane, pos)
    ensures 0 <= k < |I.occ|
  {
    IdxBounds(lane, pos, I.len, I.lanes);
    Idx(lane, pos, I.len)
  }

  /** The commit phase's `k / L`, `k % L` recover the cell from its slot. */
  lemma CellAtDecode(I: Intersection, lane: int, pos: int)
    requires Shaped(I) && InGrid(I, lane, pos)
    ensures CellAt(I, lane, pos) / I.len == lane && CellAt(I, lane, pos) % I.len == pos
  {
    IdxRoundTrip(lane, pos, I.len);
  }

  /** Distinct cells have distinct slots. */
  lemma CellAtInjective(I: Intersection, lane1: int, pos1: int, lane2: int, pos2: int)
    requires Shaped(I) && InGrid(I, lane1, pos1) && InGrid(I, lane2, pos2)
    requires CellAt(I, lane1, pos1) == CellAt(I, lane2, pos2)
    ensures lane1 == lane2 && pos1 == pos2
  {
    IdxInjective(lane1, pos1, lane2, pos2, I.len);
  }

  /**
   The shape every operation relies on: the registry is within capacity and
   every vehicle stands on a cell of the grid.
   */
  predicate WellFormed(I: Intersection)
  {
    && Shaped(I)
    && |I.vehicles| <= I.cap
    && forall i :: 0 <= i < |I.vehicles| ==> InGrid(I, I.vehicles[i].lane, I.vehicles[i].pos)
  }

  function CellOf(I: Intersection, i: int): int
    requires WellFormed(I) && 0 <= i < |I.vehicles|
  {
    CellAt(I, I.vehicles[i].lane, I.vehicles[i].pos)
  }

  /**
   The central grid invariant: vehicle `i` has id `i` and the occupancy array
   names it at its own cell, and every occupied slot names a vehicle recorded
   at that slot.
   */
  predicate Consistent(I: Intersection)
  {
    && WellFormed(I)
    && (forall i :: 0 <= i < |I.vehicles| ==> I.vehicles[i].id == i && I.occ[CellOf(I, i)] == i)
    && (forall k :: 0 <= k < |I.occ| && I.occ[k] != Free ==>
          0 <= I.occ[k] < |I.vehicles| && CellOf(I, I.occ[k]) == k)
  }

  /** Indices of the occupied cells. */
  function Occupied(I: Intersection): set<int>
  {
    set k | 0 <= k < |I.occ| && I.occ[k] != Free
  }

  /** Cells of the first `n` vehicles. */
  function CellsOf(I: Intersection, n: int): set<int>
    requires WellFormed(I) && 0 <= n <= |I.vehicles|
  {
    set i | 0 <= i < n :: CellOf(I, i)
  }

  /** Mutual exclusion: under the invariant no two vehicles share a cell. */
  lemma Exclusive(I: Intersection, i: int, j: int)
    requires Consistent(I) && 0 <= i < |I.vehicles| && 0 <= j < |I.vehicles| && i != j
    ensures CellOf(I, i) != CellOf(I, j)
    ensures I.vehicles[i].lane != I.vehicles[j].lane || I.vehicles[i].pos != I.vehicles[j].pos
  {
  }

  /** The cells of the first `n` vehicles are those of the first `n - 1` and vehicle `n - 1`'s. */
  lemma CellsOfStep(I: Intersection, n: int)
    requires WellFormed(I) && 0 < n <= |I.vehicles|
    ensures CellsOf(I, n) == CellsOf(I, n - 1) + {CellOf(I, n - 1)}
  {
  }

  /** Under the invariant vehicle `n - 1`'s cell is none of the cells before it. */
  lemma CellFresh(I: Intersection, n: int)
    requires Consistent(I) && 0 < n <= |I.vehicles|
    ensures CellOf(I, n - 1) !in CellsOf(I, n - 1)
  {
    if i :| 0 <= i < n - 1 && CellOf(I, i) == CellOf(I, n - 1) {
      Exclusive(I, i, n - 1);
    }
  }

  /** Vehicles on distinct cells occupy as many cells as there are vehicles. */
  lemma {:induction false} CellsCount(I: Intersection, n: int)
    requires Consistent(I) && 0 <= n <= |I.vehicles|
    ensures |CellsOf(I, n)| == n
  {
    if n > 0 {
      CellsCount(I, n - 1);
      CellsOfStep(I, n);
      CellFresh(I, n);
    }
  }

  /**
   Conservation in counting form: under the invariant the number of occupied
   cells equals the number of registered vehicles.
   */
  lemma OccupiedCount(I: Intersection)
    requires Consistent(I)
    ensures |Occupied(I)| == |I.vehicles|
  {
    assert Occupied(I) == CellsOf(I, |I.vehicles|) by {
      forall k | k in Occupied(I) ensures k in CellsOf(I, |I.vehicles|) {
        var i := I.occ[k];
        assert CellOf(I, i) == k;
      }
    }
    CellsCount(I, |I.vehicles|);
  }

  /**
   `init_interseccion`: every one of the `lanes * len` cells is free and no
   vehicle is registered yet; the lights are not configured until
   `InitLights`.
   */
  function InitIntersection(id: int, len: int, lanes: int, cap: int): (r: Intersection)
    requires len > 0 && lanes >= 0 && cap >= 0
    ensures Consistent(r) && |Occupied(r)| == 0
    ensures r.len == len && r.lanes == lanes && r.cap == cap && r.id == id
    ensures |r.occ| == lanes * len && |r.vehicles| == 0
  {
    MulIsProduct(lanes, len);
    var r := Intersection(id, len, lanes, seq(lanes * len, _ => Free), [], cap, []);
    assert Occupied(r) == {};
    r
  }

  /**
   One light as `init_semaforos` configures it: gating cell `pos` of lane
   `id`, showing `state`, with durations R, G, Y and the timer set to the
   current phase's duration.  With positive durations the light is periodic
   with period R + G + Y.
   */
  function InitLight(id: int, pos: int, red: int, green: int, yellow: int, state: Signal): (l: Light)
    ensures l.id == id && l.laneGroup == id && l.pos == pos && l.state == state
    ensures l.redTicks == red && l.greenTicks == green && l.yellowTicks == yellow
    ensures l.timer == Duration(l)
    ensures red >= 1 && green >= 1 && yellow >= 1 ==> UpdateN(l, red + green + yellow) == l
  {
    var c := Light(id, state, id, 0, red, yellow, green, pos);
    var l := c.(timer := Duration(c));
    assert red >= 1 && green >= 1 && yellow >= 1 ==> UpdateN(l, red + green + yellow) == l by {
      if red >= 1 && green >= 1 && yellow >= 1 {
        Period(l, red + green + yellow);
      }
    }
    l
  }

  /**
   `init_semaforos`: light 0 gates cell `posNS` of lane 0 and light 1 gates
   cell `posEW` of lane 1, both with durations R, G, Y and their timer set to
   their phase's duration.  With positive durations each of them is periodic
   with period R + G + Y.
   */
  function InitLights(I: Intersection, posNS: int, posEW: int, red: int, green: int, yellow: int,
                      stateNS: Signal, stateEW: Signal): (r: Intersection)
    ensures r == I.(lights := r.lights)
    ensures |r.lights| == 2
    ensures forall i :: 0 <= i < 2 ==>
              r.lights[i].id == i && r.lights[i].laneGroup == i && r.lights[i].timer == Duration(r.lights[i])
    ensures r.lights[0].pos == posNS && r.lights[0].state == stateNS
    ensures r.lights[1].pos == posEW && r.lights[1].state == stateEW
    ensures forall i :: 0 <= i < 2 ==>
              r.lights[i].redTicks == red && r.lights[i].greenTicks == green && r.lights[i].yellowTicks == yellow
    ensures red >= 1 && green >= 1 && yellow >= 1 ==>
              forall i :: 0 <= i < 2 ==> UpdateN(r.lights[i], red + green + yellow) == r.lights[i]
  {
    I.(lights := [InitLight(0, posNS, red, green, yellow, stateNS),
                  InitLight(1, posEW, red, green, yellow, stateEW)])
  }
}
