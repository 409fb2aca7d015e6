/**
 Traffic lights: a countdown automaton cycling RED -> GREEN -> YELLOW -> RED,
 and the gating predicate that tells the movement engine whether a cell is
 held by a light that is not green.
 */
module Lights {

  /** The source's RED = 0, GREEN = 1, YELLOW = 2; other integers are not modelled. */
  datatype Signal = Red | Green | Yellow

  /**
   One light (`Semaforo`): it gates cell `pos` of lane `laneGroup`, shows
   `state`, and has `timer` ticks left in that state.  The phase durations are
   the source's R, G and Y.
   */
  datatype Light = Light(
    id: int,
    state: Signal,
    laneGroup: int,
    timer: int,
    redTicks: int,
    yellowTicks: int,
    greenTicks: int,
    pos: int)

  /** The next signal in the fixed cycle. */
  function Succ(s: Signal): Signal
  {
    match s
    case Red => Green
    case Green => Yellow
    case Yellow => Red
  }

  /** Number of ticks the light's current phase lasts (`duracion_fase`). */
  function Duration(l: Light): int
  {
    match l.state
    case Red => l.redTicks
    case Green => l.greenTicks
    case Yellow => l.yellowTicks
  }

  predicate PositiveDurations(l: Light)
  {
    l.redTicks >= 1 && l.greenTicks >= 1 && l.yellowTicks >= 1
  }

  /** Defensive normalisation of a configured duration. */
  function AtLeastOne(d: int): int
  {
    if d <= 0 then 1 else d
  }

  /**
   `next_state`: advance the signal and restart the timer with the new
   phase's duration; nothing else changes, and with positive durations the
   new timer is positive.
   */
  function NextState(l: Light): (r: Light)
    ensures r.state == Succ(l.state) && r.timer == Duration(r)
    ensures r == l.(state := r.state, timer := r.timer)
    ensures PositiveDurations(l) ==> r.timer >= 1
  {
    var n := l.(state := Succ(l.state));
    n.(timer := Duration(n))
  }

  /**
   One tick of one light (`update_traffic_lights`' loop body): the durations
   are clamped to at least 1, the timer is decremented and, once it is no longer
   positive, the light moves to the next signal with a fresh timer.
   */
  function UpdateLight(l: Light): Light
  {
    var c := l.(redTicks := AtLeastOne(l.redTicks),
                greenTicks := AtLeastOne(l.greenTicks),
                yellowTicks := AtLeastOne(l.yellowTicks));
    var d := c.(timer := c.timer - 1);
    if d.timer <= 0 then NextState(d) else d
  }

  /**
   What one tick does to a light: afterwards every duration is at least 1
   (a non-positive one became 1, a positive one is kept); the light keeps its
   signal with the timer one lower while that stays positive, and otherwise
   shows the next signal with the timer set to that phase's duration; either
   way the timer ends at least 1.
   */
  lemma UpdateLightSpec(l: Light)
    ensures var r := UpdateLight(l);
      && PositiveDurations(r)
      && (l.redTicks >= 1 ==> r.redTicks == l.redTicks)
      && (l.greenTicks >= 1 ==> r.greenTicks == l.greenTicks)
      && (l.yellowTicks >= 1 ==> r.yellowTicks == l.yellowTicks)
      && (l.redTicks <= 0 ==> r.redTicks == 1)
      && (l.greenTicks <= 0 ==> r.greenTicks == 1)
      && (l.yellowTicks <= 0 ==> r.yellowTicks == 1)
      && r.id == l.id && r.laneGroup == l.laneGroup && r.pos == l.pos
      && (l.timer - 1 > 0 ==> r.state == l.state && r.timer == l.timer - 1)
      && (l.timer - 1 <= 0 ==> r.state == Succ(l.state) && r.timer == Duration(r))
      && r.timer >= 1
  {
  }

  /**
   `update_traffic_lights(L, n)`: the first `n` lights of the array are
   advanced by one tick, the rest are left alone.
   */
  method UpdateTrafficLights(ls: seq<Light>, n: int) returns (r: seq<Light>)
    requires n <= |ls|
    ensures |r| == |ls|
    ensures forall i :: 0 <= i < |ls| && i < n ==> r[i] == UpdateLight(ls[i])
    ensures forall i :: 0 <= i < |ls| && n <= i ==> r[i] == ls[i]
  {
    r := ls;
    var i := 0;
    while i < n
      invariant 0 <= i <= |ls| && (n >= 0 ==> i <= n) && (n < 0 ==> i == 0)
      invariant |r| == |ls|
      invariant forall j :: 0 <= j < i ==> r[j] == UpdateLight(ls[j])
      invariant forall j :: i <= j < |ls| ==> r[j] == ls[j]
    {
      r := r[i := UpdateLight(r[i])];
      i := i + 1;
    }
  }

  /** The light after `k` ticks. */
  function UpdateN(l: Light, k: nat): Light
  {
    if k == 0 then l else UpdateLight(UpdateN(l, k - 1))
  }

  /** One more tick. */
  lemma UpdateNStep(l: Light, k: nat, n: nat)
    requires n == k + 1
    ensures UpdateN(l, n) == UpdateLight(UpdateN(l, k))
  {
  }

  /** Ticking `a` then `b` times is ticking `a + b` times. */
  lemma {:induction false} UpdateNCompose(l: Light, a: nat, b: nat, n: nat)
    requires n == a + b
    ensures UpdateN(UpdateN(l, a), b) == UpdateN(l, n)
  {
    if b > 0 {
      UpdateNCompose(l, a, b - 1, n - 1);
    }
  }

  /** While the timer has not run out, a tick only decrements it. */
  lemma {:induction false} CountDown(l: Light, j: nat)
    requires PositiveDurations(l) && j < l.timer
    ensures UpdateN(l, j) == l.(timer := l.timer - j)
  {
    if j > 0 {
      CountDown(l, j - 1);
      UpdateNStep(l, j - 1, j);
      UpdateLightSpec(l.(timer := l.timer - (j - 1)));
    }
  }

  /**
   After exactly `timer` ticks (`n`) the light enters the next phase with a
   full timer.  The tick counts are passed as `k` and `n` so that the solver
   never has to unfold `UpdateN` on a field of the light itself.
   */
  lemma PhaseEnd(l: Light, k: nat, n: nat)
    requires PositiveDurations(l) && n == l.timer && k == n - 1
    ensures UpdateN(l, n) == NextState(l)
  {
    CountDown(l, k);
    UpdateNStep(l, k, n);
    assert UpdateN(l, k) == l.(timer := 1);
  }

  /**
   A light set up as `init_semaforos` does (timer equal to its phase's duration
   `d`) keeps its signal for exactly `d` ticks, then shows the next signal with
   the next phase's full duration on the timer.
   */
  lemma PhaseLength(l: Light, d: nat)
    requires PositiveDurations(l) && l.timer == Duration(l) && d == Duration(l)
    ensures forall j: nat :: j < d ==> UpdateN(l, j).state == l.state
    ensures UpdateN(l, d).state == Succ(l.state)
    ensures UpdateN(l, d).timer == Duration(UpdateN(l, d))
  {
    forall j: nat | j < d
      ensures UpdateN(l, j).state == l.state
    {
      CountDown(l, j);
    }
    PhaseEnd(l, d - 1, d);
  }

  /** Three phase changes bring a light back to its own signal with a full timer. */
  lemma FullCycle(l: Light)
    requires l.timer == Duration(l)
    ensures NextState(NextState(NextState(l))) == l
  {
    match l.state
    case Red =>
    case Green =>
    case Yellow =>
  }

  /** The three phases of a cycle last R + G + Y ticks together, whatever phase it starts in. */
  lemma CycleLength(l: Light)
    requires l.timer == Duration(l)
    ensures l.timer + NextState(l).timer + NextState(NextState(l)).timer
            == l.redTicks + l.greenTicks + l.yellowTicks
  {
    match l.state
    case Red =>
    case Green =>
    case Yellow =>
  }

  /** Three stretches of ticks one after the other. */
  lemma Chain3(l0: Light, a: nat, l1: Light, b: nat, l2: Light, c: nat, l3: Light, n: nat)
    requires UpdateN(l0, a) == l1 && UpdateN(l1, b) == l2 && UpdateN(l2, c) == l3
    requires n == a + b + c
    ensures UpdateN(l0, n) == l3
  {
    var m := a + b;
    UpdateNCompose(l0, a, b, m);
    UpdateNCompose(l0, m, c, n);
  }

  /** The light after three complete phases, whatever its timer was set to. */
  lemma ThreePhases(l: Light, n: nat)
    requires PositiveDurations(l) && l.timer == Duration(l)
    requires n == l.redTicks + l.greenTicks + l.yellowTicks
    ensures UpdateN(l, n) == NextState(NextState(NextState(l)))
  {
    var l1 := NextState(l);
    var l2 := NextState(l1);
    var a, b, c := l.timer, l1.timer, l2.timer;
    PhaseEnd(l, a - 1, a);
    PhaseEnd(l1, b - 1, b);
    PhaseEnd(l2, c - 1, c);
    CycleLength(l);
    Chain3(l, a, l1, b, l2, c, NextState(l2), n);
  }

  /**
   Periodicity: a light with positive durations whose timer is its phase's
   duration is back in exactly the same state after `n` = R + G + Y ticks.
   */
  lemma Period(l: Light, n: nat)
    requires PositiveDurations(l) && l.timer == Duration(l)
    requires n == l.redTicks + l.greenTicks + l.yellowTicks
    ensures UpdateN(l, n) == l
  {
    ThreePhases(l, n);
    FullCycle(l);
  }

  /** Light `l` stands at cell `(lane, pos)`. */
  predicate Gates(l: Light, lane: int, pos: int)
  {
    l.laneGroup == lane && l.pos == pos
  }

  /**
   `hay_alto_en`: the lights are scanned in order and the first one standing
   at `(lane, pos)` decides; the cell is held iff that light is not green.  A
   cell no light stands at is never held.
   */
  function Stopped(ls: seq<Light>, lane: int, pos: int): (b: bool)
    ensures b <==> exists i :: 0 <= i < |ls| && Gates(ls[i], lane, pos) && ls[i].state != Green
                                 && forall j :: 0 <= j < i ==> !Gates(ls[j], lane, pos)
    ensures (forall i :: 0 <= i < |ls| ==> !Gates(ls[i], lane, pos)) ==> !b
  {
    if |ls| == 0 then false
    else if Gates(ls[0], lane, pos) then ls[0].state != Green
    else
      var rest := Stopped(ls[1..], lane, pos);
      assert rest ==> exists i :: 0 < i < |ls| && Gates(ls[i], lane, pos) && ls[i].state != Green
                                  && forall j :: 0 <= j < i ==> !Gates(ls[j], lane, pos) by {
        if rest {
          var i :| 0 <= i < |ls| - 1 && Gates(ls[1..][i], lane, pos) && ls[1..][i].state != Green
                   && forall j :: 0 <= j < i ==> !Gates(ls[1..][j], lane, pos);
          assert forall j :: 0 <= j < i + 1 ==> !Gates(ls[j], lane, pos) by {
            forall j | 0 <= j < i + 1 ensures !Gates(ls[j], lane, pos) {
              if j > 0 { assert ls[j] == ls[1..][j - 1]; }
            }
          }
          assert Gates(ls[i + 1], lane, pos);
        }
      }
      assert (exists i :: 0 <= i < |ls| && Gates(ls[i], lane, pos) && ls[i].state != Green
                          && forall j :: 0 <= j < i ==> !Gates(ls[j], lane, pos)) ==> rest by {
        if i :| 0 <= i < |ls| && Gates(ls[i], lane, pos) && ls[i].state != Green
                && forall j :: 0 <= j < i ==> !Gates(ls[j], lane, pos) {
          assert i > 0;
          assert ls[1..][i - 1] == ls[i];
          assert forall j :: 0 <= j < i - 1 ==> !Gates(ls[1..][j], lane, pos) by {
            forall j | 0 <= j < i - 1 ensures !Gates(ls[1..][j], lane, pos) {
              assert ls[1..][j] == ls[j + 1];
            }
          }
        }
      }
      rest
  }
}
