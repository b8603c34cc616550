/** What the intra-floor consolidation pass does to the grid, stated on
    values: on every floor that holds a slot of the destination pool, the
    pallets at or below the highest listed slot are packed against that slot,
    lowest slots freed first. The pass itself is `Relocation.Warehouse`. */
module Consolidation {
  import opened Grid
  import opened Finder

  /** The slots listed for floor `f` (1-based) in `ps`, in list order,
      leaving out placeholders (slot 0 or below): one list of the dictionary
      of candidates the pass builds. */
  function SlotsOn(ps: seq<Coord>, f: int): seq<int>
    decreases |ps|
  {
    if |ps| == 0 then []
    else
      var c := ps[|ps| - 1];
      SlotsOn(ps[..|ps| - 1], f) + (if c.floor == f && c.slot > 0 then [c.slot] else [])
  }

  lemma {:induction false} SlotsOnMembers(ps: seq<Coord>, f: int)
    ensures forall x {:trigger x in SlotsOn(ps, f)} :: x in SlotsOn(ps, f) <==> x > 0 && Coord(f, x) in ps
    decreases |ps|
  {
    if |ps| > 0 {
      var p := ps[..|ps| - 1];
      SlotsOnMembers(p, f);
      assert ps == p + [ps[|ps| - 1]];
    }
  }

  /** Python's `max` of a non-empty list. */
  function MaxOf(s: seq<int>): (m: int)
    requires |s| > 0
    ensures m in s
    ensures forall x {:trigger x in s} :: x in s ==> x <= m
    decreases |s|
  {
    if |s| == 1 then s[0]
    else
      var p := s[..|s| - 1];
      assert s == p + [s[|s| - 1]];
      var m := MaxOf(p);
      if s[|s| - 1] > m then s[|s| - 1] else m
  }

  /** The highest slot listed for floor `f` in `ps`, or 0 when there is
      none. */
  function FloorTop(ps: seq<Coord>, f: int): (t: int)
    ensures t >= 0
    ensures t > 0 ==> Coord(f, t) in ps
    ensures forall c {:trigger c in ps} :: c in ps && c.floor == f && c.slot > 0 ==> c.slot <= t
    decreases |ps|
  {
    if |ps| == 0 then 0
    else
      var p := ps[..|ps| - 1];
      var c := ps[|ps| - 1];
      assert ps == p + [c];
      var t := FloorTop(p, f);
      if c.floor == f && c.slot > t then c.slot else t
  }

  /** The candidate list of a floor is empty exactly when the floor has no
      listed slot, and otherwise its `max` is the highest listed slot. */
  lemma CandidatesTop(ps: seq<Coord>, f: int)
    ensures SlotsOn(ps, f) == [] <==> FloorTop(ps, f) == 0
    ensures SlotsOn(ps, f) != [] ==> MaxOf(SlotsOn(ps, f)) == FloorTop(ps, f)
  {
    SlotsOnMembers(ps, f);
    var s := SlotsOn(ps, f);
    var t := FloorTop(ps, f);
    if t > 0 {
      assert t in s;
    }
    if s != [] {
      var m := MaxOf(s);
      assert Coord(f, m) in ps;
      assert m <= t;
      assert t in s;
    }
  }

  /** The highest listed slot of a floor depends only on which coordinates
      are listed, not on their order: sorting the pool first does not change
      what the pass does. */
  lemma FloorTopSame(a: seq<Coord>, b: seq<Coord>, f: int)
    requires forall x :: x in a <==> x in b
    ensures FloorTop(a, f) == FloorTop(b, f)
  {
    var ta, tb := FloorTop(a, f), FloorTop(b, f);
    if ta > 0 {
      assert Coord(f, ta) in b;
    }
    if tb > 0 {
      assert Coord(f, tb) in a;
    }
  }

  /** A row part-way through the pass: cells below `s` (0-based) as in `row`,
      cells `s .. t - 1` free, cells `t .. top - 1` occupied, the rest as in
      `row`. */
  function Packed(row: seq<bool>, s: int, t: int, top: int): (r: seq<bool>)
    ensures |r| == |row|
  {
    seq(|row|, i requires 0 <= i < |row| =>
      if i < s then row[i] else if i < t then false else if i < top then true else row[i])
  }

  /** The row after the pass with highest listed slot `top` (1-based): the
      `k` pallets among the first `top` slots sit in slots `top - k + 1 ..
      top`, the slots below them are free, and the rest of the row is as it
      was. */
  function Pack(row: seq<bool>, top: int): (r: seq<bool>)
    requires 0 <= top <= |row|
    ensures |r| == |row|
  {
    Packed(row, 0, top - Occupied(row[..top]), top)
  }

  /** The packed row, written as free slots, then pallets, then the untouched
      rest. */
  lemma PackShape(row: seq<bool>, top: int)
    requires 0 <= top <= |row|
    ensures var k := Occupied(row[..top]);
      Pack(row, top) == Falses(top - k) + Trues(k) + row[top..]
  {
    var k := Occupied(row[..top]);
    var r := Pack(row, top);
    var e := Falses(top - k) + Trues(k) + row[top..];
    assert |r| == |e|;
    forall i | 0 <= i < |r|
      ensures r[i] == e[i]
    {
      if i < top - k {
      } else if i < top {
        assert e[i] == Trues(k)[i - (top - k)];
      } else {
        assert e[i] == row[top..][i - top];
      }
    }
  }

  /** Packing moves pallets within the row and neither adds nor loses any. */
  lemma PackOccupied(row: seq<bool>, top: int)
    requires 0 <= top <= |row|
    ensures Occupied(Pack(row, top)) == Occupied(row)
  {
    PackShape(row, top);
    ShapeOccupied(row, top, Occupied(row[..top]));
  }

  /** Free slots, then the `k` pallets of the first `top` slots, then the rest
      of the row: as many pallets as the row. */
  lemma ShapeOccupied(row: seq<bool>, top: int, k: nat)
    requires 0 <= top <= |row| && k == Occupied(row[..top])
    ensures Occupied(Falses(top - k) + Trues(k) + row[top..]) == Occupied(row)
  {
    OccupiedConcat3(Falses(top - k), Trues(k), row[top..]);
    OccupiedFalses(top - k);
    OccupiedTrues(k);
    OccupiedSplit(row, top);
  }

  lemma OccupiedConcat3(a: seq<bool>, b: seq<bool>, c: seq<bool>)
    ensures Occupied(a + b + c) == Occupied(a) + Occupied(b) + Occupied(c)
  {
    OccupiedConcat(a + b, c);
    OccupiedConcat(a, b);
  }

  lemma OccupiedSplit(row: seq<bool>, i: int)
    requires 0 <= i <= |row|
    ensures Occupied(row) == Occupied(row[..i]) + Occupied(row[i..])
  {
    assert row == row[..i] + row[i..];
    OccupiedConcat(row[..i], row[i..]);
  }

  /** The pool entries carry grid coordinates (1-based). */
  predicate InGridPool(pool: seq<Coord>) {
    forall k :: 0 <= k < |pool| ==> InGrid(ToIndex(pool[k]))
  }

  /** Floor `k` (0-based) after the pass over `pool`. */
  function PackFloor(g: Cells, pool: seq<Coord>, k: int): (r: seq<bool>)
    requires Shaped(g) && InGridPool(pool) && 0 <= k < FLOORS
    ensures |r| == SLOTS
  {
    var t := FloorTop(pool, k + 1);
    if t > 0 then Pack(g[k], t) else g[k]
  }

  /** The grid after the whole consolidation pass over the destination pool
      `pool`. */
  function Consolidated(g: Cells, pool: seq<Coord>): (r: Cells)
    requires Shaped(g) && InGridPool(pool)
    ensures Shaped(r)
  {
    seq(FLOORS, k requires 0 <= k < FLOORS => PackFloor(g, pool, k))
  }

  /** The pass keeps the number of pallets on every floor, and leaves alone
      every floor without a listed slot. */
  lemma ConsolidatedFloors(g: Cells, pool: seq<Coord>)
    requires Shaped(g) && InGridPool(pool)
    ensures forall k :: 0 <= k < FLOORS ==> Occupied(Consolidated(g, pool)[k]) == Occupied(g[k])
    ensures forall k :: 0 <= k < FLOORS && FloorTop(pool, k + 1) == 0 ==> Consolidated(g, pool)[k] == g[k]
  {
    forall k | 0 <= k < FLOORS
      ensures Occupied(Consolidated(g, pool)[k]) == Occupied(g[k])
    {
      var t := FloorTop(pool, k + 1);
      if t > 0 {
        PackOccupied(g[k], t);
      }
    }
  }

  /** A valid destination pool is always large enough for the second,
      recomputed greedy pool: consolidation only rearranges pallets within
      floors, so the other floors keep as many free slots as the pool
      listed. Hence the "no empty slot" exit of the cross-floor pass is
      never taken after a feasible first pool. */
  lemma NeverRunsOut(g: Cells, cur: int, pool: seq<Coord>, needed: int)
    requires Shaped(g) && 0 <= cur < FLOORS && PoolOk(g, cur, pool)
    requires 1 <= needed <= |pool|
    ensures InGridPool(pool)
    ensures |GreedySlots(Consolidated(g, pool), cur, needed)| == needed
  {
    var h := Consolidated(g, pool);
    ConsolidatedFloors(g, pool);
    var fs := FloorOrder(cur);
    AllFreeCount(g, h, fs, |fs|);
    PoolWithinFree(g, cur, pool);
    GreedyCount(h, cur, needed);
  }
}
