/**
 One tick of vehicle movement (`move_vehicles_once`).  Every vehicle decides
 its destination against the occupancy and the lights as they stood at the
 start of the tick; the decisions are registered in a fresh buffer where the
 lowest id wins each cell; the buffer is then committed into the occupancy
 array and the vehicle records.
 */
module Movement {
  import opened Grid
  import opened Lights
  import opened Crossing

  /**
   Phase-1 decision for a vehicle at `(lane, pos)`: it advances to the next
   cell of its ring unless that cell is occupied at the start of the tick or
   held by a light that is not green, in which case it stays.  The next cell
   is `NextPos`, which `NextInRing` shows is the source's `(cur + 1) % L`.
   */
  function Decide(I: Intersection, lane: int, pos: int): (dest: int)
    requires WellFormed(I) && InGrid(I, lane, pos)
    ensures 0 <= dest < I.len
    ensures dest == pos || dest == NextPos(pos, I.len)
    ensures dest != pos ==> I.occ[CellAt(I, lane, dest)] == Free && !Stopped(I.lights, lane, dest)
    ensures I.len > 1 ==>
              (dest != pos <==> I.occ[CellAt(I, lane, NextPos(pos, I.len))] == Free
                                && !Stopped(I.lights, lane, NextPos(pos, I.len)))
  {
    var nxt := NextPos(pos, I.len);
    var occupied := I.occ[CellAt(I, lane, nxt)] != Free;
    var held := Stopped(I.lights, lane, nxt);
    if occupied || held then pos else nxt
  }

  /** The cell vehicle `i` registers for in phase 1. */
  function DestCell(I: Intersection, i: int): int
    requires WellFormed(I) && 0 <= i < |I.vehicles|
  {
    var v := I.vehicles[i];
    CellAt(I, v.lane, Decide(I, v.lane, v.pos))
  }

  /** Vehicle `i` as phase 2 leaves it when it wins its destination: same lane, new position. */
  function Moved(I: Intersection, i: int): Vehicle
    requires WellFormed(I) && 0 <= i < |I.vehicles|
  {
    var v := I.vehicles[i];
    v.(pos := Decide(I, v.lane, v.pos))
  }

  /**
   Arbitration result after the first `n` vehicles have registered: a slot is
   -1 when none of them chose that cell, and otherwise holds the lowest id
   among those that did.
   */
  predicate Arbitrated(I: Intersection, buf: seq<int>, n: int)
    requires WellFormed(I) && 0 <= n <= |I.vehicles|
  {
    && |buf| == |I.occ|
    && forall k :: 0 <= k < |buf| ==>
         if buf[k] == Free then
           forall j :: 0 <= j < n ==> DestCell(I, j) != k
         else
           && 0 <= buf[k] < n
           && DestCell(I, buf[k]) == k
           && forall j :: 0 <= j < buf[k] ==> DestCell(I, j) != k
  }

  /**
   Phase 1 of `move_vehicles_once`: vehicles decide in increasing id order and
   a slot takes an id when it is empty or the id is lower than the one there.
   */
  method ClaimCells(I: Intersection) returns (buf: seq<int>)
    requires WellFormed(I)
    ensures Arbitrated(I, buf, |I.vehicles|)
  {
    buf := seq(|I.occ|, _ => Free);
    var id := 0;
    while id < |I.vehicles|
      invariant 0 <= id <= |I.vehicles|
      invariant Arbitrated(I, buf, id)
    {
      var v := I.vehicles[id];
      var dest := Decide(I, v.lane, v.pos);
      var k := CellAt(I, v.lane, dest);
      if buf[k] == Free || id < buf[k] {
        buf := buf[k := id];
      }
      id := id + 1;
    }
  }

  /**
   Under the grid invariant no two vehicles choose the same cell: two that
   stay were already on distinct cells, two that advance came from distinct
   cells of one ring, and one cannot advance into the cell another is
   staying on because that cell was occupied at the start of the tick.
   */
  lemma DestinationsDistinct(I: Intersection, i: int, j: int)
    requires Consistent(I) && 0 <= i < |I.vehicles| && 0 <= j < |I.vehicles| && i != j
    ensures DestCell(I, i) != DestCell(I, j)
  {
    var vi, vj := I.vehicles[i], I.vehicles[j];
    var di, dj := Decide(I, vi.lane, vi.pos), Decide(I, vj.lane, vj.pos);
    if DestCell(I, i) == DestCell(I, j) {
      CellAtInjective(I, vi.lane, di, vj.lane, dj);
      Exclusive(I, i, j);
      if di == vi.pos && dj == vj.pos {
        assert false;
      } else if di != vi.pos && dj != vj.pos {
        assert false;
      } else {
        assert false;
      }
    }
  }

  /** Under the grid invariant every vehicle wins the cell it chose. */
  lemma EveryoneWins(I: Intersection, buf: seq<int>, i: int)
    requires Consistent(I) && Arbitrated(I, buf, |I.vehicles|) && 0 <= i < |I.vehicles|
    ensures buf[DestCell(I, i)] == i
  {
    var k := DestCell(I, i);
    var w := buf[k];
    assert w != Free;
    if w != i {
      DestinationsDistinct(I, i, w);
    }
  }

  /**
   `move_vehicles_once`.  For any well-formed state: the new occupancy is the
   lowest-id arbitration of the phase-1 decisions, and a vehicle moves to its
   decided cell exactly when it won that cell, keeping its lane.  When the grid
   invariant holds on entry every vehicle wins, so each ends the tick on its
   decided cell, the invariant holds again and as many cells are occupied as
   there are vehicles.
   */
  method MoveOnce(I: Intersection) returns (r: Intersection)
    requires WellFormed(I)
    ensures WellFormed(r)
    ensures r == I.(occ := r.occ, vehicles := r.vehicles)
    ensures |r.vehicles| == |I.vehicles|
    ensures Arbitrated(I, r.occ, |I.vehicles|)
    ensures forall i :: 0 <= i < |I.vehicles| ==>
              r.vehicles[i] == if r.occ[DestCell(I, i)] == i then Moved(I, i) else I.vehicles[i]
    ensures Consistent(I) ==> Consistent(r)
    ensures Consistent(I) ==> forall i :: 0 <= i < |I.vehicles| ==> r.vehicles[i] == Moved(I, i)
    ensures Consistent(I) ==> |Occupied(r)| == |I.vehicles|
  {
    var buf := ClaimCells(I);
    var total := |I.occ|;
    var occ := I.occ;
    var vs := I.vehicles;
    var k := 0;
    while k < total
      invariant 0 <= k <= total && |occ| == total && |vs| == |I.vehicles|
      invariant forall j :: 0 <= j < k ==> occ[j] == buf[j]
      invariant forall j :: k <= j < total ==> occ[j] == I.occ[j]
      invariant forall i :: 0 <= i < |vs| ==>
                  vs[i] == if DestCell(I, i) < k && buf[DestCell(I, i)] == i then Moved(I, i) else I.vehicles[i]
    {
      var id := buf[k];
      occ := occ[k := id];
      if id != Free {
        CellAtDecode(I, I.vehicles[id].lane, Decide(I, I.vehicles[id].lane, I.vehicles[id].pos));
        var lane := k / I.len;
        var pos := k % I.len;
        vs := vs[id := vs[id].(lane := lane, pos := pos)];
      }
      k := k + 1;
    }
    assert occ == buf;
    r := I.(occ := occ, vehicles := vs);
    assert WellFormed(r) by {
      forall i | 0 <= i < |vs| ensures InGrid(r, vs[i].lane, vs[i].pos) {
        assert vs[i] == Moved(I, i) || vs[i] == I.vehicles[i];
      }
    }
    if Consistent(I) {
      forall i | 0 <= i < |I.vehicles| ensures r.vehicles[i] == Moved(I, i) && CellOf(r, i) == DestCell(I, i) {
        EveryoneWins(I, buf, i);
      }
      assert Consistent(r);
      OccupiedCount(r);
    }
  }
}
