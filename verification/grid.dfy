/**
 The occupancy store of the intersection is one flat array: cell `(lane, pos)`
 of a grid whose lanes all have `len` cells lives at index `lane * len + pos`.
 This module defines that flattening and proves that division and remainder by
 `len` take it apart again, which is how the commit phase of a tick recovers a
 vehicle's lane and position from a cell index.
 */
module Grid {

  /**
   `a * b` as `a` repeated additions of `b`.  Grid sizes and indices are
   written with it, so that a product of two variables reaches the solver only
   where `MulIsProduct` brings it in.
   */
  function Mul(a: nat, b: int): int
  {
    if a == 0 then 0 else Mul(a - 1, b) + b
  }

  lemma {:induction false} MulIsProduct(a: nat, b: int)
    ensures Mul(a, b) == a * b
  {
    if a > 0 {
      MulIsProduct(a - 1, b);
    }
  }

  /** Flat index of cell `(lane, pos)`; the source's `idx`, `lane * len + pos`. */
  function Idx(lane: nat, pos: int, len: int): int
  {
    Mul(lane, len) + pos
  }

  /** Multiplication by a positive length is strictly monotone, in steps of `len`. */
  lemma MulStep(a: int, b: int, len: int)
    requires len > 0 && a < b
    ensures a * len + len <= b * len
  {
    var d := b - a;
    assert d >= 1;
    assert (d - 1) * len >= 0;
    assert b * len == a * len + d * len;
    assert d * len == (d - 1) * len + len;
  }

  /** A cell inside an `lanes` x `len` grid has an index inside the flat array. */
  lemma IdxBounds(lane: nat, pos: int, len: int, lanes: nat)
    requires lane < lanes && 0 <= pos < len
    ensures 0 <= Idx(lane, pos, len) < Mul(lanes, len)
  {
    MulIsProduct(lane, len);
    MulIsProduct(lanes, len);
    assert lane * len >= 0;
    MulStep(lane, lanes, len);
  }

  /**
   Index round trip: dividing a flat index by `len` gives back the lane and the
   remainder gives back the position.  For a non-negative index C's truncating
   division agrees with Dafny's Euclidean one, so this is also the source's
   `k / L`, `k % L`.
   */
  lemma IdxRoundTrip(lane: nat, pos: int, len: int)
    requires len > 0 && 0 <= pos < len
    ensures Idx(lane, pos, len) / len == lane
    ensures Idx(lane, pos, len) % len == pos
  {
    MulIsProduct(lane, len);
    var k := Idx(lane, pos, len);
    var q, m := k / len, k % len;
    assert k == q * len + m && 0 <= m < len;
    if q < lane {
      MulStep(q, lane, len);
      assert false;
    } else if lane < q {
      MulStep(lane, q, len);
      assert false;
    }
  }

  /** Every index of an `lanes` x `len` array decodes to a cell of the grid that encodes back to it. */
  lemma IdxDecode(k: int, len: int, lanes: nat)
    requires len > 0 && 0 <= k < Mul(lanes, len)
    ensures 0 <= k / len < lanes && 0 <= k % len < len
    ensures Idx(k / len, k % len, len) == k
  {
    MulIsProduct(lanes, len);
    var q := k / len;
    assert k == q * len + k % len;
    if q < 0 {
      MulStep(q, 0, len);
      assert false;
    }
    if lanes <= q {
      if lanes < q {
        MulStep(lanes, q, len);
      }
      assert false;
    }
    MulIsProduct(q, len);
  }

  /** Distinct cells have distinct indices. */
  lemma IdxInjective(lane1: nat, pos1: int, lane2: nat, pos2: int, len: int)
    requires len > 0 && 0 <= pos1 < len && 0 <= pos2 < len
    requires Idx(lane1, pos1, len) == Idx(lane2, pos2, len)
    ensures lane1 == lane2 && pos1 == pos2
  {
    IdxRoundTrip(lane1, pos1, len);
    IdxRoundTrip(lane2, pos2, len);
  }

  /** Adding one lap to a non-negative offset does not change its position in the ring. */
  lemma ModAddLen(a: int, len: int)
    requires len > 0 && 0 <= a
    ensures (a + len) % len == a % len
  {
    var q, m := a / len, a % len;
    MulIsProduct(q, len);
    MulIsProduct(q + 1, len);
    assert a == Idx(q, m, len);
    assert a + len == Idx(q + 1, m, len);
    IdxRoundTrip(q + 1, m, len);
  }

  /** Stepping one cell forward in the ring from offset `a` is stepping from `a % len`. */
  lemma ModStep(a: int, len: int)
    requires len > 0 && 0 <= a
    ensures (a % len + 1) % len == (a + 1) % len
  {
    var q, m := a / len, a % len;
    MulIsProduct(q, len);
    MulIsProduct(q + 1, len);
    assert a == Idx(q, m, len);
    if m + 1 < len {
      assert a + 1 == Idx(q, m + 1, len);
      IdxRoundTrip(q, m + 1, len);
      IdxRoundTrip(0, m + 1, len);
    } else {
      assert a + 1 == Idx(q + 1, 0, len);
      IdxRoundTrip(q + 1, 0, len);
      IdxRoundTrip(1, 0, len);
    }
  }

  /** The cell after `pos` in a ring of `len` cells: the next one, or 0 after the last. */
  function NextPos(pos: int, len: int): int
  {
    if pos + 1 < len then pos + 1 else 0
  }

  /** The source's `(cur + 1) % L` is `NextPos`. */
  lemma NextInRing(pos: int, len: int)
    requires 0 <= pos < len
    ensures (pos + 1) % len == NextPos(pos, len)
  {
    if pos + 1 < len {
      IdxRoundTrip(0, pos + 1, len);
    } else {
      IdxRoundTrip(1, 0, len);
    }
  }

  /** Position `j` cells ahead of `pos` in a ring of `len` cells. */
  function Ahead(pos: int, j: int, len: int): int
    requires len > 0
  {
    (pos + j) % len
  }

  /** Zero cells ahead of a position is the position itself. */
  lemma AheadZero(pos: int, len: int)
    requires 0 <= pos < len
    ensures Ahead(pos, 0, len) == pos
  {
    IdxRoundTrip(0, pos, len);
  }

  /** Scanning `len` consecutive offsets from `start` visits every position of the ring. */
  lemma RingCovered(start: int, q: int, len: int) returns (j: int)
    requires len > 0 && 0 <= start < len && 0 <= q < len
    ensures 0 <= j < len && Ahead(start, j, len) == q
  {
    if start <= q {
      j := q - start;
      IdxRoundTrip(0, q, len);
    } else {
      j := q - start + len;
      IdxRoundTrip(1, q, len);
    }
  }
}
