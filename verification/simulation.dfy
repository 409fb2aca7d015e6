/**
 The shape of the program's main loop: set the intersection up, then for each
 tick advance both lights and move the vehicles once.  Console output and the
 demo's constants are not part of the model.
 */
module Simulation {
  import opened Lights
  import opened Crossing
  import opened Placement
  import opened Movement

  /**
   The set-up half of `main`: an empty grid, the two lights, and the
   round-robin placement.  The grid invariant holds before the first tick,
   the lights are those of `init_semaforos` (periodic with period R + G + Y
   when the durations are positive), and vehicle `i` stands at its
   round-robin cell, for `min(N, numCarriles * L)` vehicles or until the
   registry is full.
   */
  method Setup(len: int, lanes: int, cap: int, n: int, posNS: int, posEW: int,
               red: int, green: int, yellow: int, stateNS: Signal, stateEW: Signal)
    returns (r: Intersection)
    requires len > 0 && lanes >= 0 && cap >= 0
    ensures Consistent(r) && |r.lights| == 2
    ensures r.id == 0 && r.len == len && r.lanes == lanes && r.cap == cap
    ensures r.lights == InitLights(InitIntersection(0, len, lanes, cap), posNS, posEW,
                                   red, green, yellow, stateNS, stateEW).lights
    ensures red >= 1 && green >= 1 && yellow >= 1 ==>
              forall i :: 0 <= i < 2 ==> UpdateN(r.lights[i], red + green + yellow) == r.lights[i]
    ensures Requested(r, n) <= cap ==> |r.vehicles| == if n <= 0 then 0 else Requested(r, n)
    ensures Requested(r, n) > cap ==> |r.vehicles| == cap
    ensures forall i :: 0 <= i < |r.vehicles| ==>
              lanes > 0 && r.vehicles[i] == Vehicle(i, RoundRobinPos(r, i), RoundRobinLane(r, i))
  {
    var I := InitIntersection(0, len, lanes, cap);
    I := InitLights(I, posNS, posEW, red, green, yellow, stateNS, stateEW);
    assert Empty(I);
    r := InitRoundRobin(I, n);
  }

  /** The lane of every registered vehicle, by id. */
  function Lanes(I: Intersection): seq<int>
  {
    seq(|I.vehicles|, i requires 0 <= i < |I.vehicles| => I.vehicles[i].lane)
  }

  /**
   One tick: `update_traffic_lights` on both lights, then `move_vehicles_once`
   deciding against the updated lights.  The grid invariant is preserved and
   every vehicle keeps its id and lane.
   */
  method Tick(I: Intersection) returns (r: Intersection)
    requires Consistent(I) && |I.lights| == 2
    ensures Consistent(r) && |r.lights| == 2
    ensures forall i :: 0 <= i < 2 ==> r.lights[i] == UpdateLight(I.lights[i])
    ensures r.len == I.len && r.lanes == I.lanes && r.cap == I.cap
    ensures |r.vehicles| == |I.vehicles|
    ensures forall i :: 0 <= i < |I.vehicles| ==> r.vehicles[i] == Moved(I.(lights := r.lights), i)
    ensures Lanes(r) == Lanes(I)
    ensures |Occupied(r)| == |I.vehicles|
  {
    var lights := UpdateTrafficLights(I.lights, 2);
    var lit := I.(lights := lights);
    r := MoveOnce(lit);
    assert Lanes(r) == Lanes(I);
  }

  /** One tick of both lights extends `k` ticks to `n` = `k + 1`. */
  lemma LightsStep(start: seq<Light>, before: seq<Light>, after: seq<Light>, k: nat, n: nat)
    requires |start| == 2 && |before| == 2 && |after| == 2 && n == k + 1
    requires forall i :: 0 <= i < 2 ==> before[i] == UpdateN(start[i], k)
    requires forall i :: 0 <= i < 2 ==> after[i] == UpdateLight(before[i])
    ensures forall i :: 0 <= i < 2 ==> after[i] == UpdateN(start[i], n)
  {
    UpdateNStep(start[0], k, n);
    UpdateNStep(start[1], k, n);
  }

  /**
   `T` ticks of the main loop.  The grid invariant holds after every tick,
   no vehicle is lost, created or moved to another lane, and each light is
   where `T` updates take it.
   */
  method Run(I: Intersection, T: int) returns (r: Intersection)
    requires Consistent(I) && |I.lights| == 2
    ensures Consistent(r) && |r.lights| == 2
    ensures r.len == I.len && r.lanes == I.lanes && r.cap == I.cap
    ensures |r.vehicles| == |I.vehicles| && |Occupied(r)| == |I.vehicles|
    ensures Lanes(r) == Lanes(I)
    ensures forall i :: 0 <= i < 2 ==> r.lights[i] == UpdateN(I.lights[i], if T > 0 then T else 0)
  {
    r := I;
    var done: nat := 0;  // ticks completed; the source's `t` is `done + 1`
    OccupiedCount(r);
    while done < T
      invariant T >= 0 ==> done <= T
      invariant T < 0 ==> done == 0
      invariant Consistent(r) && |r.lights| == 2
      invariant r.len == I.len && r.lanes == I.lanes && r.cap == I.cap
      invariant |r.vehicles| == |I.vehicles| && |Occupied(r)| == |I.vehicles|
      invariant Lanes(r) == Lanes(I)
      invariant forall i :: 0 <= i < 2 ==> r.lights[i] == UpdateN(I.lights[i], done)
    {
      var next := Tick(r);
      LightsStep(I.lights, r.lights, next.lights, done, done + 1);
      r := next;
      done := done + 1;
    }
  }
}
