# Traffic intersection simulator — Dafny model

This project models the sequential core of a discrete-time traffic simulator,
`simulacion_secuencial.c`. An intersection has `numCarriles` circular lanes of
`L` cells each. A flat occupancy array, indexed by `lane * L + pos`, stores
either -1 for a free cell or the id of the vehicle standing there. There is a
registry of vehicles with a fixed capacity. There are two traffic lights, one
per lane group, and each one gates a single cell.

Every tick does two things, in this order:

1. It advances both lights. Each light is a countdown automaton:
   RED, then GREEN, then YELLOW, then RED again.
2. It moves every vehicle at most one cell forward in two phases.
   - **Phase 1: decide and claim.** Each vehicle chooses its next cell, unless
     that cell is occupied or held by a light that is not green. It registers
     for its chosen cell in a fresh buffer, and the lowest id wins each cell.
   - **Phase 2: commit.** The buffer is copied into the occupancy array, and
     each winner's record is set to its new cell.

The model is split into six modules:

- `Grid`: the `idx` flattening and its `k / L`, `k % L` inverse, plus ring
  arithmetic on a lane.
- `Lights`: `duracion_fase`, `next_state`, `update_traffic_lights` and the
  gating test `hay_alto_en`.
- `Crossing`: the `Interseccion` state, its invariants, `init_interseccion`
  and `init_semaforos`.
- `Placement`: `add_vehicle` and `init_vehiculos_round_robin`.
- `Movement`: `move_vehicles_once`.
- `Simulation`: the set-up part of `main` and its tick loop.

The state is an immutable datatype. Each C routine that mutates the
intersection becomes a function or method that returns the new intersection.

The central invariant is `Crossing.Consistent`. It says three things:

- vehicle `i` has id `i`;
- every vehicle stands on a cell of the grid, and the occupancy array names
  it there;
- every occupied slot names a registered vehicle that stands at that slot.

The model proves the following:

- Round-robin placement establishes `Consistent`.
- Every tick preserves it.
- Under `Consistent`, no two vehicles choose the same cell. So the lowest-id
  rule never drops a vehicle, and the number of occupied cells always equals
  the number of vehicles.
- A light with positive durations whose timer starts at its phase's duration
  is periodic with period R + G + Y.

## Model

| member | source | states |
|---|---|---|
| Grid.Idx | simulacion_secuencial.c:35 | the flattening `lane * L + pos`; its contract is stated by `Grid.IdxBounds`, `Grid.IdxRoundTrip`, `Grid.IdxDecode` and `Grid.IdxInjective` |
| Grid.MulIsProduct | simulacion_secuencial.c:35 | the repeated-addition product used for grid sizes and indices is the source's `lane * L` |
| Grid.IdxBounds | simulacion_secuencial.c:35 | a cell of a `lanes x len` grid flattens to a slot inside the occupancy array |
| Grid.IdxRoundTrip | simulacion_secuencial.c:187-188 | dividing and taking the remainder of `lane * L + pos` by `L` gives back the lane and the position |
| Grid.IdxDecode | simulacion_secuencial.c:183-190 | every slot `k` of the array decodes to a cell in range that flattens back to `k` |
| Grid.IdxInjective | simulacion_secuencial.c:35 | distinct cells flatten to distinct slots |
| Grid.NextInRing | simulacion_secuencial.c:170 | `(cur + 1) % L` is the next position, or 0 after the last one (`NextPos`) |
| Grid.RingCovered | simulacion_secuencial.c:88-90 | stepping forward from any position reaches every position of the lane within `L` steps |
| Lights.Duration | simulacion_secuencial.c:37-39 | the current phase's duration (R, G or Y by signal); what it promises over a cycle is stated by `Lights.PhaseLength` and `Lights.CycleLength` |
| Lights.NextState | simulacion_secuencial.c:125-131 | the signal advances RED to GREEN to YELLOW to RED and the timer restarts at the new phase's duration, which is positive when the durations are; nothing else changes |
| Lights.UpdateLight | simulacion_secuencial.c:136-144 | one tick of one light; its contract is stated by `Lights.UpdateLightSpec` |
| Lights.UpdateLightSpec | simulacion_secuencial.c:133-146 | one tick clamps non-positive durations to 1 and keeps positive ones; it decrements the timer while that stays positive, and otherwise switches to the next signal with that phase's duration; id, lane group and position are kept |
| Lights.UpdateTrafficLights | simulacion_secuencial.c:133-146 | the first `n` lights take one tick each, and the rest of the array is unchanged |
| Lights.UpdateNCompose | simulacion_secuencial.c:133-146 | `a` ticks followed by `b` ticks equal `a + b` ticks |
| Lights.CountDown | simulacion_secuencial.c:141-144 | while the timer has not run out, `j` ticks only lower the timer by `j` |
| Lights.PhaseEnd | simulacion_secuencial.c:125-131 | after exactly `timer` ticks the light shows the next signal with a full timer |
| Lights.PhaseLength | simulacion_secuencial.c:37-39 | a light whose timer equals its phase duration keeps its signal for exactly that many ticks, then switches to the next signal |
| Lights.FullCycle | simulacion_secuencial.c:125-131 | three phase changes bring the light back to its own signal and timer |
| Lights.CycleLength | simulacion_secuencial.c:37-39 | the three phase durations seen around one cycle sum to R + G + Y, whatever the starting phase |
| Lights.ThreePhases | simulacion_secuencial.c:133-146 | R + G + Y ticks from the start of a phase equal three phase changes |
| Lights.Period | simulacion_secuencial.c:125-146 | a light with positive durations whose timer equals its phase duration is back in exactly the same state after R + G + Y ticks |
| Lights.Stopped | simulacion_secuencial.c:148-157 | a cell is held exactly when the first light standing at it is not green; a cell no light stands at is never held |
| Crossing.Consistent | simulacion_secuencial.c:25-28 | the grid invariant behind `occ`: vehicle `i` has id `i` and is named at its own cell, and every non-free slot names a registered vehicle standing there; established by `Crossing.InitIntersection` and `Placement.InitRoundRobin`, preserved by `Movement.MoveOnce` and `Simulation.Run` |
| Crossing.CellAt | simulacion_secuencial.c:35 | the slot of a grid cell lies inside the occupancy array |
| Crossing.CellAtDecode | simulacion_secuencial.c:187-188 | the commit phase's division and remainder recover a vehicle's lane and position from its slot |
| Crossing.CellAtInjective | simulacion_secuencial.c:25 | the occupancy array has one slot per cell |
| Crossing.Exclusive | simulacion_secuencial.c:25 | under the grid invariant, no two vehicles share a cell |
| Crossing.CellFresh | simulacion_secuencial.c:25 | under the grid invariant, a vehicle's cell is none of the cells of the vehicles registered before it |
| Crossing.CellsCount | simulacion_secuencial.c:25-28 | under the grid invariant, the first `n` vehicles occupy `n` distinct cells |
| Crossing.OccupiedCount | simulacion_secuencial.c:25-28 | under the grid invariant, the number of occupied cells equals `numVehiculos` |
| Crossing.InitIntersection | simulacion_secuencial.c:42-53 | all `numCarriles * L` cells are free, no vehicle is registered, the dimensions and capacity are as given, and the invariant holds |
| Crossing.InitLight | simulacion_secuencial.c:60-74 | one light gates position `pos` of lane `id`, shows the given signal, has durations R, G, Y and a timer equal to its phase's duration; with positive durations it is back in the same state after R + G + Y ticks |
| Crossing.InitLights | simulacion_secuencial.c:55-75 | light 0 gates `(0, posNS)` and light 1 gates `(1, posEW)`, each with durations R, G, Y, the given signal and timer equal to its phase's duration; with positive durations both are periodic with period R + G + Y |
| Movement.Decide | simulacion_secuencial.c:169-175 | a vehicle either stays or moves to the next cell of its ring; it moves only into a cell that was free and not held; when `L > 1` it moves exactly when that cell is free and not held |
| Movement.ClaimCells | simulacion_secuencial.c:163-180 | each buffer slot is -1 when no vehicle chose that cell, and otherwise holds the lowest id that chose it |
| Movement.DestinationsDistinct | simulacion_secuencial.c:166-180 | under the grid invariant, distinct vehicles choose distinct cells |
| Movement.EveryoneWins | simulacion_secuencial.c:179 | under the grid invariant, every vehicle wins the cell it chose |
| Movement.MoveOnce | simulacion_secuencial.c:159-195 | the occupancy array becomes the lowest-id arbitration, and a vehicle moves to its chosen cell exactly when it won it; under the grid invariant every vehicle moves to its chosen cell, the invariant is preserved and the count of occupied cells equals the vehicle count |
| Placement.FullLane | simulacion_secuencial.c:88-91 | a scan that passed only occupied cells for a whole lap shows the lane is full |
| Placement.ScanFound | simulacion_secuencial.c:88-91 | a scan that stops on a free cell, having passed only occupied ones, stops within the first lap at the first free cell from the requested one |
| Placement.ScanWrapped | simulacion_secuencial.c:88-92 | a scan that gives up after `L + 1` steps has found the lane full and stands one cell past the requested one |
| Placement.FindFree | simulacion_secuencial.c:83-93 | the chosen cell is the requested one when that is free, otherwise the first free cell forward with wrap-around; in a full lane it is the cell after the requested one |
| Placement.Register | simulacion_secuencial.c:79-93 | the vehicle is appended to the registry and named at its cell, every other vehicle and slot is unchanged; registering the next id on a free cell of a consistent grid with room keeps the invariant and adds exactly that cell to the occupied ones |
| Placement.AddVehicle | simulacion_secuencial.c:77-96 | with a full registry the result is -1 and nothing changes; otherwise the next sequential id is registered in the requested lane at the cell `FindFree` settles on; the invariant is kept when the lane has a free cell |
| Placement.FullLaneBreaksInvariant | simulacion_secuencial.c:87-93 | registering in a full lane, as the code does when its scan gives up, overwrites another vehicle's slot and breaks the grid invariant |
| Placement.AddVehicleChecked | simulacion_secuencial.c:77-96 | the result is -1, with nothing changed, exactly when the registry is full or the lane has no free cell; otherwise the vehicle is placed at the first free cell from the requested one; the invariant is always preserved |
| Placement.RoundRobinDistinct | simulacion_secuencial.c:102-105 | the first `numCarriles * L` round-robin cells are pairwise distinct |
| Placement.InitRoundRobin | simulacion_secuencial.c:99-107 | on an empty grid, `min(N, numCarriles * L)` vehicles are placed (bounded by capacity); vehicle `i` stands at lane `i % numCarriles`, position `(i / numCarriles) % L`; the invariant holds |
| Simulation.Setup | simulacion_secuencial.c:221-227 | after set-up the grid invariant holds; the lights are exactly those `init_semaforos` configures and, with positive durations, periodic with period R + G + Y; `min(N, numCarriles * L)` vehicles are registered, or `capVehiculos` when that is smaller; vehicle `i` stands at lane `i % numCarriles`, position `(i / numCarriles) % L` |
| Simulation.Tick | simulacion_secuencial.c:233-235 | one tick advances both lights by one update, then moves each vehicle to the cell it chose against the updated lights; the invariant, the vehicle count and every vehicle's lane are kept |
| Simulation.LightsStep | simulacion_secuencial.c:234 | one more light update extends `k` ticks to `k + 1` for both lights |
| Simulation.Run | simulacion_secuencial.c:233-240 | after `T` ticks the invariant holds, no vehicle is lost, created or moved to another lane, and each light is where `T` updates take it |

## Left out

- `print_estado` and the per-tick console output are not modelled, because they are output only. Neither is the commented-out pause.
- `malloc`, `free` and `destroy_interseccion` are not modelled. Memory management has no counterpart in an immutable model.
- The constants of `main` (L = 5, two lanes, N = 6, T = 8, R = 2, G = 2, Y = 1, and so on) are not modelled. `Simulation.Setup` and `Simulation.Run` take them as parameters.
- `simulacion_paralela.c` is not modelled. It contains only the type declarations shared with the sequential file and no logic.
- C `int` overflow is not modelled. Dafny integers are unbounded, and the model assumes that `lane * L + pos`, the timers and the ids stay within range.
- The model has only the three signal values. In the source, an `estado` outside 0..2 has the YELLOW duration and changes to RED. That value cannot arise after `init_semaforos` with a valid state.
- Inputs for which C has undefined behaviour become preconditions:
  - a lane or position outside the grid in `add_vehicle`;
  - `L <= 0`;
  - `n` larger than the light array in `update_traffic_lights`.
- Lights.Stopped scans the whole light sequence, where the source scans its fixed two-element array. After `init_semaforos` the intersection holds exactly two lights, so the two agree.
- Placement.InitRoundRobin requires an empty, freshly initialised intersection, which is the only way `main` calls it.
- Placement.AddVehicle makes no consistency claim on the full-lane path. There the code overwrites another vehicle's slot, as recorded under Findings.
- Two behaviours of the code are modelled as written, with the corrected or unreachable case shown separately:
  - `add_vehicle` has no failure return for a full lane (simulacion_secuencial.c:87-93) and registers the vehicle anyway. `Placement.AddVehicleChecked` is the corrected version.
  - `move_vehicles_once` records only the lowest id per destination cell (simulacion_secuencial.c:179), so a vehicle that loses a cell would be absent from `occ`. `Movement.MoveOnce` models this as written, and `Movement.DestinationsDistinct` shows that from a consistent state no vehicle ever loses.

## Findings

| source | as written | input that shows it | evidently intended | confidence | as-written member | corrected member |
|---|---|---|---|---|---|---|
| simulacion_secuencial.c:87-93 | when the forward scan wraps round a full lane, it breaks and still writes the new id into the cell after the requested one, after the vehicle has already been registered | a one-lane grid with L = 1 and capacity 2, holding vehicle 0 at (0, 0); `add_vehicle(I, 0, 0)` registers vehicle 1 at (0, 0) and overwrites `occ[0]`, so vehicle 0 is no longer named by the occupancy array | a full lane is a failed placement: return -1 and register nothing, as for a full registry | medium, not executed | Placement.AddVehicle, Placement.FullLaneBreaksInvariant | Placement.AddVehicleChecked |

Round-robin placement calls `Placement.AddVehicle`, as the code calls `add_vehicle`. `Placement.InitRoundRobin` proves that each requested cell is still free when it is placed, so set-up never reaches the full-lane path, and the as-written and corrected versions agree there.
