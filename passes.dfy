/** The states the two lane-clearing passes go through, stated on values,
    and how one turn of each loop moves from one state to the next. The
    methods of `Relocation.Warehouse` carry these states as loop invariants. */
module Passes {
  import opened Grid
  import opened Sorting
  import opened Finder
  import opened Strategy
  import opened Consolidation

  // ---- One floor of the consolidation pass ----

  /** Every move stays on floor `f` and goes to a strictly higher slot below
      `top` (0-based slots). */
  predicate UpwardOnFloor(ms: seq<Move>, f: int, top: int) {
    forall k :: 0 <= k < |ms| ==>
      ms[k].orig.floor == f && ms[k].dest.floor == f && ms[k].orig.slot < ms[k].dest.slot < top
  }

  /** The scan of floor `f` down from slot `top` (1-based) has visited slots
      `s + 1 .. top` with current target `t`: the pallets met so far sit in
      slots `t + 1 .. top`, the visited slots below them are free, and `c` is
      what the recorded moves `ms` made of `g0`. */
  predicate FloorScan(g0: Cells, f: int, top: int, s: int, t: int, ms: seq<Move>, c: Cells) {
    ScanBounds(g0, f, top, s, t) && ScanRow(g0, f, top, s, t, c) &&
    Performs(g0, ms, c) && UpwardOnFloor(ms, f, top)
  }

  /** The scan position `s` is at or below the target `t`, itself at or
      below `top`; they are equal only before the first step, when the slot
      `top` is free. */
  predicate ScanBounds(g0: Cells, f: int, top: int, s: int, t: int) {
    Shaped(g0) && 0 <= f < FLOORS && 0 <= s <= t <= top <= SLOTS &&
    (s < t || (s == top && 1 <= top && !g0[f][top - 1]))
  }

  /** Floor `f` of `c` is the partly packed row, the other floors are as in
      `g0`, and the target has dropped by the number of pallets met. */
  predicate ScanRow(g0: Cells, f: int, top: int, s: int, t: int, c: Cells)
    requires ScanBounds(g0, f, top, s, t)
  {
    Shaped(c) && c == g0[f := Packed(g0[f], s, t, top)] &&
    top - t == Occupied(g0[f][s..top])
  }

  lemma FloorScanInit(g0: Cells, f: int, top: int)
    requires Shaped(g0) && 0 <= f < FLOORS && 1 <= top <= SLOTS && !g0[f][top - 1]
    ensures FloorScan(g0, f, top, top, top, [], g0)
  {
    assert Packed(g0[f], top, top, top) == g0[f];
    assert g0[f := g0[f]] == g0;
  }

  /** A pallet met by the scan moves to the target, which is above it and
      free. */
  lemma FloorScanMove(g0: Cells, f: int, top: int, s: int, t: int, ms: seq<Move>, c: Cells)
    requires FloorScan(g0, f, top, s, t, ms, c) && s > 0 && c[f][s - 1]
    ensures s < t
    ensures c[f][s - 1] && !c[f][t - 1]
    ensures FloorScan(g0, f, top, s - 1, t - 1, ms + [Move(Coord(f, s - 1), Coord(f, t - 1))],
                      Step(c, Coord(f, s - 1), Coord(f, t - 1)))
  {
    var row := g0[f];
    var p := Packed(row, s, t, top);
    var m := Move(Coord(f, s - 1), Coord(f, t - 1));
    assert c[f] == p;
    assert s < t;
    var c2 := Step(c, m.orig, m.dest);
    StepOnFloor(c, f, s - 1, t - 1);
    PackedStep(row, s, t, top);
    assert c2 == g0[f := Packed(row, s - 1, t - 1, top)] by {
      assert c2 == c[f := Packed(row, s - 1, t - 1, top)];
      assert c[f := Packed(row, s - 1, t - 1, top)] == g0[f := Packed(row, s - 1, t - 1, top)];
    }
    OccupiedFront(row, s - 1, top);
    PerformsSnoc(g0, ms, c, m);
    UpwardSnoc(ms, m, f, top);
  }

  /** A move within floor `f` rewrites that floor only. */
  lemma StepOnFloor(c: Cells, f: int, a: int, b: int)
    requires Shaped(c) && 0 <= f < FLOORS && 0 <= a < SLOTS && 0 <= b < SLOTS && a != b
    ensures Step(c, Coord(f, a), Coord(f, b)) == c[f := c[f][b := c[f][a]][a := false]]
  {
    GridExt(Step(c, Coord(f, a), Coord(f, b)), c[f := c[f][b := c[f][a]][a := false]]);
  }

  /** Counting the pallets of `row[a..b]` from its first cell. */
  lemma OccupiedFront(row: seq<bool>, a: int, b: int)
    requires 0 <= a < b <= |row|
    ensures Occupied(row[a..b]) == (if row[a] then 1 else 0) + Occupied(row[a + 1..b])
  {
    assert row[a..b][1..] == row[a + 1..b];
  }

  lemma UpwardSnoc(ms: seq<Move>, m: Move, f: int, top: int)
    requires UpwardOnFloor(ms, f, top)
    requires m.orig.floor == f && m.dest.floor == f && m.orig.slot < m.dest.slot < top
    ensures UpwardOnFloor(ms + [m], f, top)
  {
    assert forall k :: 0 <= k < |ms| ==> (ms + [m])[k] == ms[k];
  }

  /** A free slot met by the scan is passed over. */
  lemma FloorScanSkip(g0: Cells, f: int, top: int, s: int, t: int, ms: seq<Move>, c: Cells)
    requires FloorScan(g0, f, top, s, t, ms, c) && s > 0 && !c[f][s - 1]
    ensures FloorScan(g0, f, top, s - 1, t, ms, c)
  {
    var row := g0[f];
    assert Packed(row, s, t, top) == Packed(row, s - 1, t, top);
    OccupiedFront(row, s - 1, top);
  }

  /** At the end of the scan the floor is packed. */
  lemma FloorScanDone(g0: Cells, f: int, top: int, t: int, ms: seq<Move>, c: Cells)
    requires FloorScan(g0, f, top, 0, t, ms, c)
    ensures c == g0[f := Pack(g0[f], top)]
  {
    assert g0[f][0..top] == g0[f][..top];
  }

  /** One pallet of a row part-way through the scan moves from `s - 1` to
      `t - 1` (0-based): the free stretch and the packed stretch both move
      down by one. */
  lemma PackedStep(row: seq<bool>, s: int, t: int, top: int)
    requires 0 < s < t <= top <= |row| && row[s - 1]
    ensures Packed(row, s, t, top)[t - 1 := true][s - 1 := false] == Packed(row, s - 1, t - 1, top)
  {
  }

  // ---- The consolidation pass over all floors ----

  /** The candidate list of each floor is empty exactly when the pool lists
      no slot on it, and otherwise its `max` is the highest listed slot. */
  predicate ListsTops(pool: seq<Coord>, cand: seq<seq<int>>) {
    |cand| == FLOORS &&
    forall f :: 0 <= f < FLOORS ==>
      (cand[f] == [] <==> FloorTop(pool, f + 1) == 0) &&
      (cand[f] != [] ==> MaxOf(cand[f]) == FloorTop(pool, f + 1))
  }

  /** Sorting a valid pool keeps its entries, all on grid floors. */
  lemma SortedPoolFloors(g: Cells, floor: int, pool: seq<Coord>, sorted: seq<Coord>)
    requires Shaped(g) && PoolOk(g, floor, pool) && sorted == SortDescending(pool)
    ensures forall x :: x in sorted <==> x in pool
    ensures forall k :: 0 <= k < |sorted| && sorted[k].slot > 0 ==> 1 <= sorted[k].floor <= FLOORS
  {
    SameMembers(sorted, pool);
    forall k | 0 <= k < |sorted| && sorted[k].slot > 0
      ensures 1 <= sorted[k].floor <= FLOORS
    {
      assert sorted[k] in pool;
      var j :| 0 <= j < |pool| && pool[j] == sorted[k];
      assert InGrid(ToIndex(pool[j]));
    }
  }

  /** The lists built from the sorted pool have the pool's highest slots. */
  lemma CandidatesListTops(sorted: seq<Coord>, pool: seq<Coord>, cand: seq<seq<int>>)
    requires forall x :: x in sorted <==> x in pool
    requires |cand| == FLOORS && forall f :: 0 <= f < FLOORS ==> cand[f] == SlotsOn(sorted, f + 1)
    ensures ListsTops(pool, cand)
  {
    forall f | 0 <= f < FLOORS
      ensures (cand[f] == [] <==> FloorTop(pool, f + 1) == 0) &&
              (cand[f] != [] ==> MaxOf(cand[f]) == FloorTop(pool, f + 1))
    {
      CandidatesTop(sorted, f + 1);
      FloorTopSame(sorted, pool, f + 1);
    }
  }

  /** No move touches floor `floor`. */
  predicate OffFloor(ms: seq<Move>, floor: int) {
    forall k :: 0 <= k < |ms| ==> ms[k].orig.floor != floor && ms[k].dest.floor != floor
  }

  /** Floors `0 .. n - 1` (0-based) have been packed as the pool says, the
      others are as in `g0`, and `c` is what the moves `ms` made of `g0`. */
  predicate PoolPass(g0: Cells, pool: seq<Coord>, floor: int, n: int, ms: seq<Move>, c: Cells)
    requires Shaped(g0) && InGridPool(pool)
  {
    PoolFloors(g0, pool, n, c) && Performs(g0, ms, c) && OffFloor(ms, floor)
  }

  /** Floors `0 .. n - 1` (0-based) of `c` are packed as the pool says, the
      others are as in `g0`. */
  predicate PoolFloors(g0: Cells, pool: seq<Coord>, n: int, c: Cells)
    requires Shaped(g0) && InGridPool(pool)
  {
    0 <= n <= FLOORS && Shaped(c) &&
    forall k :: 0 <= k < FLOORS ==> c[k] == if k < n then PackFloor(g0, pool, k) else g0[k]
  }

  /** Packing floor `n` extends the packed floors by one. */
  lemma PoolFloorsPacked(g0: Cells, pool: seq<Coord>, n: int, c: Cells, c2: Cells)
    requires Shaped(g0) && InGridPool(pool) && PoolFloors(g0, pool, n, c)
    requires n < FLOORS && 1 <= FloorTop(pool, n + 1) <= SLOTS
    requires c2 == c[n := Pack(c[n], FloorTop(pool, n + 1))]
    ensures PoolFloors(g0, pool, n + 1, c2)
  {
    assert c[n] == g0[n];
    forall k | 0 <= k < FLOORS
      ensures c2[k] == if k < n + 1 then PackFloor(g0, pool, k) else g0[k]
    {
      if k != n {
        assert c2[k] == c[k];
      }
    }
  }

  lemma PoolPassInit(g0: Cells, pool: seq<Coord>, floor: int)
    requires Shaped(g0) && InGridPool(pool)
    ensures PoolPass(g0, pool, floor, 0, [], g0)
  {
  }

  /** A floor without a listed slot is left alone. */
  lemma PoolPassSkip(g0: Cells, pool: seq<Coord>, floor: int, n: int, ms: seq<Move>, c: Cells)
    requires Shaped(g0) && InGridPool(pool) && PoolPass(g0, pool, floor, n, ms, c)
    requires n < FLOORS && FloorTop(pool, n + 1) == 0
    ensures PoolPass(g0, pool, floor, n + 1, ms, c)
  {
  }

  /** A floor with a listed slot is not the request floor, and its highest
      listed slot is in the grid and still free when the pass reaches it. */
  lemma PoolPassTop(g0: Cells, pool: seq<Coord>, floor: int, n: int, ms: seq<Move>, c: Cells)
    requires Shaped(g0) && 0 <= floor < FLOORS && PoolOk(g0, floor, pool)
    requires InGridPool(pool) && PoolPass(g0, pool, floor, n, ms, c)
    requires n < FLOORS && FloorTop(pool, n + 1) > 0
    ensures n != floor && 1 <= FloorTop(pool, n + 1) <= SLOTS
    ensures !c[n][FloorTop(pool, n + 1) - 1]
  {
    var top := FloorTop(pool, n + 1);
    var j :| 0 <= j < |pool| && pool[j] == Coord(n + 1, top);
    assert InGrid(ToIndex(pool[j])) && pool[j].floor != floor + 1 && !Get(g0, ToIndex(pool[j]));
    assert c[n] == g0[n];
  }

  /** Packing the floor the pass has reached extends the state by one
      floor. */
  lemma PoolPassPacked(g0: Cells, pool: seq<Coord>, floor: int, n: int, ms: seq<Move>, c: Cells,
                       top: int, fm: seq<Move>, c2: Cells)
    requires Shaped(g0) && InGridPool(pool) && PoolPass(g0, pool, floor, n, ms, c)
    requires n < FLOORS && n != floor && top == FloorTop(pool, n + 1) && 1 <= top <= SLOTS
    requires c2 == c[n := Pack(c[n], top)]
    requires Shaped(c) && Performs(c, fm, c2) && UpwardOnFloor(fm, n, top)
    ensures PoolPass(g0, pool, floor, n + 1, ms + fm, c2)
  {
    PoolFloorsPacked(g0, pool, n, c, c2);
    PerformsConcat(g0, ms, c, fm, c2);
    OffFloorConcat(ms, fm, floor, n, top);
  }

  /** Moves kept on floor `n` stay off every other floor. */
  lemma OffFloorConcat(ms: seq<Move>, fm: seq<Move>, floor: int, n: int, top: int)
    requires OffFloor(ms, floor) && UpwardOnFloor(fm, n, top) && n != floor
    ensures OffFloor(ms + fm, floor)
  {
    forall k | 0 <= k < |ms + fm|
      ensures (ms + fm)[k].orig.floor != floor && (ms + fm)[k].dest.floor != floor
    {
      if k >= |ms| {
        assert (ms + fm)[k] == fm[k - |ms|];
      }
    }
  }

  lemma PoolPassDone(g0: Cells, pool: seq<Coord>, floor: int, ms: seq<Move>, c: Cells)
    requires Shaped(g0) && InGridPool(pool) && PoolPass(g0, pool, floor, FLOORS, ms, c)
    ensures c == Consolidated(g0, pool)
  {
  }

  // ---- The cross-floor pass ----

  /** The blocker list of a request on `floor` (0-based): 1-based occupied
      slots of that floor in strictly ascending order. */
  predicate BlockersOk(g: Cells, floor: int, blocking: seq<Coord>)
    requires Shaped(g) && 0 <= floor < FLOORS
  {
    (forall k :: 0 <= k < |blocking| ==>
       blocking[k].floor == floor + 1 && 1 <= blocking[k].slot <= SLOTS && g[floor][blocking[k].slot - 1]) &&
    (forall i, j :: 0 <= i < j < |blocking| ==> blocking[i].slot < blocking[j].slot)
  }

  /** The moves of the cross-floor pass: blocker `i` (in list order) to entry
      `i` of the descending candidate list, both made 0-based. */
  function BlockerMoves(blocking: seq<Coord>, cands: seq<Coord>): (ms: seq<Move>)
    ensures |ms| == Min(|blocking|, |cands|)
  {
    seq(Min(|blocking|, |cands|), i requires 0 <= i < Min(|blocking|, |cands|) =>
      Move(ToIndex(blocking[i]), ToIndex(cands[i])))
  }

  /** The position of the first occurrence of `x` in `xs`. */
  function FirstIndex(xs: seq<Coord>, x: Coord): (i: nat)
    requires x in xs
    ensures i < |xs| && xs[i] == x && x !in xs[..i]
    decreases |xs|
  {
    if xs[0] == x then 0
    else
      assert x in xs[1..] by {
        var j :| 0 <= j < |xs| && xs[j] == x;
        assert xs[1..][j - 1] == x;
      }
      var j := FirstIndex(xs[1..], x);
      assert xs[..j + 1] == [xs[0]] + xs[1..][..j];
      j + 1
  }

  /** `list.remove(x)`: drops the first occurrence of `x` and keeps the
      order of the rest. Python raises `ValueError` when `x` is absent; the
      engine only removes an entry it has just read from the list. */
  function RemoveFirst(xs: seq<Coord>, x: Coord): (r: seq<Coord>)
    requires x in xs
    ensures exists i :: 0 <= i < |xs| && xs[i] == x && x !in xs[..i] && r == xs[..i] + xs[i + 1..]
  {
    var i := FirstIndex(xs, x);
    xs[..i] + xs[i + 1..]
  }

  /** A pool with the same entries as a valid pool and no repeats is valid:
      sorting a valid pool keeps it valid. */
  lemma PoolOkSameElements(g: Cells, cur: int, a: seq<Coord>, b: seq<Coord>)
    requires Shaped(g) && PoolOk(g, cur, a) && Distinct(b)
    requires forall x :: x in a <==> x in b
    ensures PoolOk(g, cur, b)
  {
    forall k | 0 <= k < |b|
      ensures InGrid(ToIndex(b[k])) && b[k].floor != cur + 1 && !Get(g, ToIndex(b[k]))
    {
      assert b[k] in a;
      var j :| 0 <= j < |a| && a[j] == b[k];
    }
  }

  /** The first `i` blockers have gone to the first `i` candidates; the
      blockers still to move are in place and the candidates still to use are
      free in `c`, which is what the moves `ms` made of `h`. */
  predicate Relocating(h: Cells, floor: int, blocking: seq<Coord>, cands: seq<Coord>, i: int,
                       ms: seq<Move>, c: Cells)
    requires Shaped(h) && 0 <= floor < FLOORS
  {
    0 <= i <= |blocking| && i <= |cands| &&
    BlockersOk(h, floor, blocking) && PoolOk(h, floor, cands) &&
    Paired(blocking, cands, i, ms) && Shaped(c) && Performs(h, ms, c) &&
    Waiting(c, blocking, cands, i)
  }

  /** The moves `ms` take blocker `k` to candidate `k`, for `k < i`. */
  predicate Paired(blocking: seq<Coord>, cands: seq<Coord>, i: int, ms: seq<Move>) {
    0 <= i <= |blocking| && i <= |cands| && |ms| == i &&
    forall k :: 0 <= k < i ==> ms[k] == Move(ToIndex(blocking[k]), ToIndex(cands[k]))
  }

  /** From position `i` on, the blockers are in place and the candidates are
      free in `c`. */
  predicate Waiting(c: Cells, blocking: seq<Coord>, cands: seq<Coord>, i: int)
    requires Shaped(c)
  {
    0 <= i &&
    (forall j :: i <= j < |blocking| ==> InGrid(ToIndex(blocking[j])) && Get(c, ToIndex(blocking[j]))) &&
    (forall j :: i <= j < |cands| ==> InGrid(ToIndex(cands[j])) && !Get(c, ToIndex(cands[j])))
  }

  lemma RelocatingInit(h: Cells, floor: int, blocking: seq<Coord>, cands: seq<Coord>)
    requires Shaped(h) && 0 <= floor < FLOORS
    requires BlockersOk(h, floor, blocking) && PoolOk(h, floor, cands)
    ensures Relocating(h, floor, blocking, cands, 0, [], h)
  {
  }

  /** The next blocker goes to the next candidate: the move is valid, and
      neither the remaining blockers nor the remaining candidates are
      touched. */
  lemma RelocatingMove(h: Cells, floor: int, blocking: seq<Coord>, cands: seq<Coord>, i: int,
                       ms: seq<Move>, c: Cells)
    requires Shaped(h) && 0 <= floor < FLOORS
    requires Relocating(h, floor, blocking, cands, i, ms, c) && i < |blocking| && i < |cands|
    ensures InGrid(ToIndex(blocking[i])) && InGrid(ToIndex(cands[i]))
    ensures RemoveFirst(cands[i..], cands[i]) == cands[i + 1..]
    ensures Relocating(h, floor, blocking, cands, i + 1,
                       ms + [Move(ToIndex(blocking[i]), ToIndex(cands[i]))],
                       Step(c, ToIndex(blocking[i]), ToIndex(cands[i])))
  {
    var m := Move(ToIndex(blocking[i]), ToIndex(cands[i]));
    PerformsSnoc(h, ms, c, m);
    assert cands[i..][1..] == cands[i + 1..];
    PairedSnoc(blocking, cands, i, ms);
    WaitingStep(c, blocking, cands, i);
  }

  lemma PairedSnoc(blocking: seq<Coord>, cands: seq<Coord>, i: int, ms: seq<Move>)
    requires Paired(blocking, cands, i, ms) && i < |blocking| && i < |cands|
    ensures Paired(blocking, cands, i + 1, ms + [Move(ToIndex(blocking[i]), ToIndex(cands[i]))])
  {
  }

  /** Moving blocker `i` to candidate `i` leaves the later blockers and
      candidates as they were: the slots differ from both ends of the move. */
  lemma WaitingStep(c: Cells, blocking: seq<Coord>, cands: seq<Coord>, i: int)
    requires Shaped(c) && Waiting(c, blocking, cands, i) && 0 <= i < |blocking| && i < |cands|
    requires forall j :: i < j < |blocking| ==> blocking[i].slot < blocking[j].slot
    requires forall j :: i < j < |cands| ==> cands[i] != cands[j]
    ensures Waiting(Step(c, ToIndex(blocking[i]), ToIndex(cands[i])), blocking, cands, i + 1)
  {
    var src, dst := ToIndex(blocking[i]), ToIndex(cands[i]);
    var c2 := Step(c, src, dst);
    forall j | i + 1 <= j < |blocking|
      ensures Get(c2, ToIndex(blocking[j]))
    {
      assert ToIndex(blocking[j]) != src;
      assert ToIndex(blocking[j]) != dst;
    }
    forall j | i + 1 <= j < |cands|
      ensures !Get(c2, ToIndex(cands[j]))
    {
      assert ToIndex(cands[j]) != src;
      assert ToIndex(cands[j]) != dst;
    }
  }

  /** When either list is used up, the moves made are exactly the pairing of
      the blockers with the candidates. */
  lemma RelocatingDone(h: Cells, floor: int, blocking: seq<Coord>, cands: seq<Coord>, i: int,
                       ms: seq<Move>, c: Cells)
    requires Shaped(h) && 0 <= floor < FLOORS
    requires Relocating(h, floor, blocking, cands, i, ms, c) && (i == |blocking| || i == |cands|)
    ensures ms == BlockerMoves(blocking, cands)
    ensures forall k :: 0 <= k < |ms| ==> ms[k].orig == ToIndex(blocking[k]) && ms[k].dest.floor != floor
  {
  }
}
