/** The two per-floor counters of the engine: free slots from a given slot
    to the end of the floor, and pallets on a floor. Both take 1-based
    arguments and read the grid with Python's indexing, where `-1` is the
    last element. */
module Counters {
  import opened Grid

  /** Python's `xs[i]` index for a list of length `n`: a negative `i`
      counts from the end. Defined where Python does not raise. */
  function PyIndex(i: int, n: int): (r: int)
    requires -n <= i < n
    ensures 0 <= r < n
    ensures r == i || r == i + n
  {
    if i < 0 then i + n else i
  }

  /** Number of free cells in a row. */
  function FreeCount(row: seq<bool>): (n: nat)
    ensures n <= |row|
    decreases |row|
  {
    if |row| == 0 then 0
    else FreeCount(row[..|row| - 1]) + (if row[|row| - 1] then 0 else 1)
  }

  /** Every cell of a row is either free or occupied. */
  lemma {:induction false} FreeOccupied(row: seq<bool>)
    ensures FreeCount(row) + Occupied(row) == |row|
    decreases |row|
  {
    if |row| > 0 {
      var q := row[..|row| - 1];
      FreeOccupied(q);
      assert row == q + [row[|row| - 1]];
      OccupiedConcat(q, [row[|row| - 1]]);
    }
  }

  /** Counting one more cell of a slice. */
  lemma FreeCountNext(row: seq<bool>, a: int, b: int)
    requires 0 <= a <= b < |row|
    ensures FreeCount(row[a..b + 1]) == FreeCount(row[a..b]) + (if row[b] then 0 else 1)
  {
    assert row[a..b + 1][..b - a] == row[a..b];
  }

  /** What `count_rightmost(floor, slot)` counts on the row of that floor:
      the free cells from slot `slot` (1-based) to the end. With `slot` 0 or
      below, the range starts at a negative index, which Python reads from
      the end of the row; so the cells at the end are counted once from
      there and once more in the full pass. Past the last slot the range is
      empty. */
  function Rightmost(row: seq<bool>, slot: int): nat
    requires 1 - |row| <= slot
  {
    if slot > |row| then 0
    else if slot >= 1 then FreeCount(row[slot - 1..])
    else FreeCount(row[slot - 1 + |row|..]) + FreeCount(row)
  }

  /** The free cells met by `for s in range(lo, hi)` reading `row[s - 1]`
      Python-style, for `lo <= hi <= |row| + 1`. */
  function Visited(row: seq<bool>, lo: int, hi: int): nat
    requires 1 - |row| <= lo <= hi <= |row| + 1
  {
    var n := |row|;
    if lo >= 1 then FreeCount(row[lo - 1..hi - 1])
    else if hi <= 1 then FreeCount(row[lo - 1 + n..hi - 1 + n])
    else FreeCount(row[lo - 1 + n..]) + FreeCount(row[..hi - 1])
  }

  /** One more turn of the loop adds the cell it reads. */
  lemma VisitedNext(row: seq<bool>, lo: int, hi: int)
    requires 1 - |row| <= lo <= hi < |row| + 1
    ensures Visited(row, lo, hi + 1) == Visited(row, lo, hi) + (if row[PyIndex(hi - 1, |row|)] then 0 else 1)
  {
    if lo >= 1 {
      VisitedNextForward(row, lo, hi);
    } else if hi <= 0 {
      VisitedNextWrapped(row, lo, hi);
    } else {
      VisitedNextAcross(row, lo, hi);
    }
  }

  /** A range that starts at slot 1 or later reads the row forward. */
  lemma VisitedNextForward(row: seq<bool>, lo: int, hi: int)
    requires 1 <= lo <= hi < |row| + 1
    ensures Visited(row, lo, hi + 1) == Visited(row, lo, hi) + (if row[hi - 1] then 0 else 1)
  {
    FreeCountNext(row, lo - 1, hi - 1);
  }

  /** While `s - 1` is negative, the loop reads the end of the row. */
  lemma VisitedNextWrapped(row: seq<bool>, lo: int, hi: int)
    requires 1 - |row| <= lo <= hi <= 0
    ensures Visited(row, lo, hi + 1) == Visited(row, lo, hi) + (if row[hi - 1 + |row|] then 0 else 1)
  {
    FreeCountNext(row, lo - 1 + |row|, hi - 1 + |row|);
  }

  /** Once `s - 1` reaches 0, a range that started below slot 1 reads the
      start of the row. */
  lemma VisitedNextAcross(row: seq<bool>, lo: int, hi: int)
    requires 1 - |row| <= lo < 1 <= hi < |row| + 1
    ensures Visited(row, lo, hi + 1) == Visited(row, lo, hi) + (if row[hi - 1] then 0 else 1)
  {
    var n := |row|;
    if hi == 1 {
      assert row[lo - 1 + n..hi - 1 + n] == row[lo - 1 + n..];
      assert row[..1] == row[0..1] && row[..0] == row[0..0];
      FreeCountNext(row, 0, 0);
    } else {
      assert row[..hi] == row[0..hi] && row[..hi - 1] == row[0..hi - 1];
      FreeCountNext(row, 0, hi - 1);
    }
  }

  /** The whole loop visits what `Rightmost` describes. */
  lemma VisitedAll(row: seq<bool>, slot: int)
    requires 1 - |row| <= slot <= |row| + 1
    ensures Visited(row, slot, |row| + 1) == Rightmost(row, slot)
  {
    if slot >= 1 {
      assert row[slot - 1..|row|] == row[slot - 1..];
    } else {
      assert row[..|row|] == row;
    }
  }

  /** `count_rightmost`: counts, for `s` in `range(slot, slots + 1)`, the
      free cells `warehouse[floor - 1][s - 1]`. */
  method CountRightmost(g: Cells, floor: int, slot: int) returns (count: nat)
    requires Shaped(g)
    requires 1 - FLOORS <= floor <= FLOORS && 1 - SLOTS <= slot
    ensures count == Rightmost(g[PyIndex(floor - 1, FLOORS)], slot)
  {
    var row := g[PyIndex(floor - 1, FLOORS)];
    count := 0;
    if slot > SLOTS + 1 {
      return;
    }
    var s := slot;
    while s < SLOTS + 1
      invariant slot <= s <= SLOTS + 1
      invariant count == Visited(row, slot, s)
    {
      VisitedNext(row, slot, s);
      if !row[PyIndex(s - 1, SLOTS)] {
        count := count + 1;
      }
      s := s + 1;
    }
    VisitedAll(row, slot);
  }

  /** `count_occupied`: counts, for `s` in `range(1, slots + 1)`, the
      occupied cells `warehouse[floor - 1][s - 1]`. */
  method CountOccupied(g: Cells, floor: int) returns (count: nat)
    requires Shaped(g)
    requires 1 - FLOORS <= floor <= FLOORS
    ensures count == Occupied(g[PyIndex(floor - 1, FLOORS)])
  {
    var row := g[PyIndex(floor - 1, FLOORS)];
    count := 0;
    for s := 1 to SLOTS + 1
      invariant count == Occupied(row[..s - 1])
    {
      assert row[..s] == row[..s - 1] + [row[s - 1]];
      OccupiedConcat(row[..s - 1], [row[s - 1]]);
      if row[s - 1] {
        count := count + 1;
      }
    }
    assert row[..SLOTS] == row;
  }

  /** On every floor, the free slots counted from slot 1 and the pallets
      counted on the floor add up to the number of slots. */
  lemma RightmostPlusOccupied(row: seq<bool>)
    requires |row| >= 1
    ensures Rightmost(row, 1) + Occupied(row) == |row|
  {
    assert row[0..] == row;
    FreeOccupied(row);
  }

  /** Starting at slot 0 counts the last slot twice: once through index -1
      and once in the full pass. */
  lemma RightmostFromZero(row: seq<bool>)
    requires |row| >= 1
    ensures Rightmost(row, 0) == Rightmost(row, 1) + (if row[|row| - 1] then 0 else 1)
  {
    assert row[0..] == row;
    assert row[|row| - 1..] == [row[|row| - 1]];
    assert [row[|row| - 1]][..0] == [];
  }

  /** `count_rightmost` never counts more than the cells its range visits,
      `|row| - slot + 1` of them (a negative start reads the tail of the row
      and then the whole row); from a slot inside the row it reaches that
      many exactly when every cell from `slot` to the end is free. */
  lemma RightmostBound(row: seq<bool>, slot: int)
    requires 1 - |row| <= slot <= |row| + 1
    ensures Rightmost(row, slot) <= |row| - slot + 1
    ensures 1 <= slot ==>
      (Rightmost(row, slot) == |row| - slot + 1 <==> forall i :: slot - 1 <= i < |row| ==> !row[i])
  {
    if 1 <= slot {
      var t := row[slot - 1..];
      FreeCountFull(t);
      assert forall i :: slot - 1 <= i < |row| ==> row[i] == t[i - (slot - 1)];
    }
  }

  /** A row has as many free cells as cells exactly when none is occupied. */
  lemma {:induction false} FreeCountFull(row: seq<bool>)
    ensures FreeCount(row) == |row| <==> forall i :: 0 <= i < |row| ==> !row[i]
    decreases |row|
  {
    if |row| > 0 {
      var q := row[..|row| - 1];
      FreeCountFull(q);
      assert forall i :: 0 <= i < |q| ==> q[i] == row[i];
    }
  }

  /** Counting from a later slot never finds more free slots. */
  lemma {:induction false} RightmostMonotone(row: seq<bool>, a: int, b: int)
    requires 1 <= a <= b
    ensures Rightmost(row, b) <= Rightmost(row, a)
    decreases b - a
  {
    if a < b && a <= |row| {
      RightmostMonotone(row, a + 1, b);
      if a + 1 <= |row| {
        var t := row[a - 1..];
        assert t[1..] == row[a..];
        FreeCountFront(t);
      }
    }
  }

  /** Dropping the first cell of a row never adds free cells. */
  lemma {:induction false} FreeCountFront(row: seq<bool>)
    requires |row| >= 1
    ensures FreeCount(row[1..]) <= FreeCount(row)
    ensures FreeCount(row) == FreeCount(row[1..]) + (if row[0] then 0 else 1)
    decreases |row|
  {
    if |row| > 1 {
      var q := row[..|row| - 1];
      FreeCountFront(q);
      assert q[1..] == row[1..][..|row| - 2];
    } else {
      assert row[1..] == [];
    }
  }
}
