/** The warehouse grid: a fixed number of floors, each a row of slots that is
    either occupied (true) or free (false); coordinates, single moves, and
    plans (sequences of moves) with their replay in reverse. */
module Grid {

  /** Number of floors and of slots per floor. */
  const FLOORS: int := 8
  const SLOTS: int := 18

  /** A coordinate. Grid indices and recorded moves use it 0-based; blocker
      lists and destination pools use it 1-based, as the engine does. */
  datatype Coord = Coord(floor: int, slot: int)

  /** One recorded move, from `orig` to `dest`, 0-based. */
  datatype Move = Move(orig: Coord, dest: Coord)

  type Cells = seq<seq<bool>>

  /** The grid has FLOORS rows of SLOTS cells each. */
  predicate Shaped(g: Cells) {
    |g| == FLOORS && forall f :: 0 <= f < |g| ==> |g[f]| == SLOTS
  }

  predicate InGrid(c: Coord) {
    0 <= c.floor < FLOORS && 0 <= c.slot < SLOTS
  }

  /** A 1-based coordinate as the 0-based grid index `(floor - 1, slot - 1)`. */
  function ToIndex(c: Coord): Coord {
    Coord(c.floor - 1, c.slot - 1)
  }

  predicate Distinct<T(==)>(s: seq<T>) {
    forall i, j :: 0 <= i < j < |s| ==> s[i] != s[j]
  }

  /** The grid of a fresh installation: every slot free. */
  function EmptyGrid(): (g: Cells)
    ensures Shaped(g)
    ensures forall f, s :: 0 <= f < FLOORS && 0 <= s < SLOTS ==> !g[f][s]
  {
    seq(FLOORS, _ => seq(SLOTS, _ => false))
  }

  function Get(g: Cells, c: Coord): bool
    requires Shaped(g) && InGrid(c)
  {
    g[c.floor][c.slot]
  }

  function Set(g: Cells, c: Coord, v: bool): (r: Cells)
    requires Shaped(g) && InGrid(c)
    ensures Shaped(r)
    ensures forall d :: InGrid(d) ==> Get(r, d) == if d == c then v else Get(g, d)
  {
    g[c.floor := g[c.floor][c.slot := v]]
  }

  /** Two grids that agree on every cell are the same grid. */
  lemma GridExt(g1: Cells, g2: Cells)
    requires Shaped(g1) && Shaped(g2)
    requires forall d :: InGrid(d) ==> Get(g1, d) == Get(g2, d)
    ensures g1 == g2
  {
    forall f | 0 <= f < FLOORS
      ensures g1[f] == g2[f]
    {
      forall s | 0 <= s < SLOTS
        ensures g1[f][s] == g2[f][s]
      {
        assert Get(g1, Coord(f, s)) == Get(g2, Coord(f, s));
      }
    }
  }

  /** The logical change of one pallet move: the destination takes the
      source's value, then the source is cleared. */
  function Step(g: Cells, src: Coord, dst: Coord): (r: Cells)
    requires Shaped(g) && InGrid(src) && InGrid(dst)
    ensures Shaped(r)
    ensures !Get(r, src)
    ensures dst != src ==> Get(r, dst) == Get(g, src)
    ensures forall d :: InGrid(d) && d != src && d != dst ==> Get(r, d) == Get(g, d)
  {
    Set(Set(g, dst, Get(g, src)), src, false)
  }

  /** A move may be applied: both ends in the grid, the origin holds a
      pallet, the destination is free. */
  predicate ValidMove(g: Cells, m: Move)
    requires Shaped(g)
  {
    InGrid(m.orig) && InGrid(m.dest) && Get(g, m.orig) && !Get(g, m.dest)
  }

  /** Moving a pallet and moving it straight back restores the grid. */
  lemma StepBack(g: Cells, m: Move)
    requires Shaped(g) && ValidMove(g, m)
    ensures Step(Step(g, m.orig, m.dest), m.dest, m.orig) == g
  {
    var h := Step(g, m.orig, m.dest);
    GridExt(Step(h, m.dest, m.orig), g);
  }

  /** A cell that is neither end of a move is untouched by it, so setting it
      before or after the move gives the same grid. */
  lemma StepSetCommute(h: Cells, a: Coord, b: Coord, t: Coord, v: bool)
    requires Shaped(h) && InGrid(a) && InGrid(b) && InGrid(t)
    requires t != a && t != b
    ensures Step(Set(h, t, v), a, b) == Set(Step(h, a, b), t, v)
  {
    GridExt(Step(Set(h, t, v), a, b), Set(Step(h, a, b), t, v));
  }

  predicate InGridPlan(ms: seq<Move>) {
    forall k :: 0 <= k < |ms| ==> InGrid(ms[k].orig) && InGrid(ms[k].dest)
  }

  /** `t` is neither the origin nor the destination of any move of `ms`. */
  predicate NotEndpoint(t: Coord, ms: seq<Move>) {
    forall k :: 0 <= k < |ms| ==> ms[k].orig != t && ms[k].dest != t
  }

  /** The grid after performing the moves of `ms` in order. */
  function ApplyPlan(g: Cells, ms: seq<Move>): (r: Cells)
    requires Shaped(g) && InGridPlan(ms)
    ensures Shaped(r)
    decreases |ms|
  {
    if |ms| == 0 then g
    else
      var m := ms[|ms| - 1];
      Step(ApplyPlan(g, ms[..|ms| - 1]), m.orig, m.dest)
  }

  /** Every move of `ms` is valid in the grid it is applied to. */
  predicate ValidPlan(g: Cells, ms: seq<Move>)
    requires Shaped(g)
    decreases |ms|
  {
    InGridPlan(ms) &&
    (|ms| == 0 ||
     (ValidPlan(g, ms[..|ms| - 1]) && ValidMove(ApplyPlan(g, ms[..|ms| - 1]), ms[|ms| - 1])))
  }

  /** The replay of `ms` in reverse order with origin and destination
      swapped, applied to `h`. */
  function Undo(h: Cells, ms: seq<Move>): (r: Cells)
    requires Shaped(h) && InGridPlan(ms)
    ensures Shaped(r)
    decreases |ms|
  {
    if |ms| == 0 then h
    else
      var m := ms[|ms| - 1];
      Undo(Step(h, m.dest, m.orig), ms[..|ms| - 1])
  }

  /** Appending one move to a plan. */
  lemma ApplyPlanSnoc(g: Cells, ms: seq<Move>, m: Move)
    requires Shaped(g) && InGridPlan(ms) && InGrid(m.orig) && InGrid(m.dest)
    ensures InGridPlan(ms + [m])
    ensures ApplyPlan(g, ms + [m]) == Step(ApplyPlan(g, ms), m.orig, m.dest)
    ensures ValidPlan(g, ms + [m]) <==> ValidPlan(g, ms) && ValidMove(ApplyPlan(g, ms), m)
  {
    assert (ms + [m])[..|ms|] == ms;
  }

  /** Performing `a` then `b` is performing `a + b`; the concatenation is
      valid exactly when `a` is, and `b` is in the grid `a` leaves. */
  lemma {:induction false} PlanConcat(g: Cells, a: seq<Move>, b: seq<Move>)
    requires Shaped(g) && InGridPlan(a) && InGridPlan(b)
    ensures InGridPlan(a + b)
    ensures ApplyPlan(g, a + b) == ApplyPlan(ApplyPlan(g, a), b)
    ensures ValidPlan(g, a + b) <==> ValidPlan(g, a) && ValidPlan(ApplyPlan(g, a), b)
    decreases |b|
  {
    if |b| == 0 {
      assert a + b == a;
    } else {
      var b' := b[..|b| - 1];
      var m := b[|b| - 1];
      assert b == b' + [m];
      assert a + b == (a + b') + [m];
      PlanConcat(g, a, b');
      ApplyPlanSnoc(g, a + b', m);
      ApplyPlanSnoc(ApplyPlan(g, a), b', m);
    }
  }

  /** `ms` is a valid plan from `g` and leaves the grid `c`. */
  predicate Performs(g: Cells, ms: seq<Move>, c: Cells)
    requires Shaped(g)
  {
    ValidPlan(g, ms) && c == ApplyPlan(g, ms)
  }

  /** A valid move after a plan extends it. */
  lemma PerformsSnoc(g: Cells, ms: seq<Move>, c: Cells, m: Move)
    requires Shaped(g) && Shaped(c) && Performs(g, ms, c) && ValidMove(c, m)
    ensures Performs(g, ms + [m], Step(c, m.orig, m.dest))
  {
    ApplyPlanSnoc(g, ms, m);
  }

  /** A plan from the grid another plan leaves extends that plan. */
  lemma PerformsConcat(g: Cells, a: seq<Move>, c: Cells, b: seq<Move>, d: Cells)
    requires Shaped(g) && Shaped(c) && Performs(g, a, c) && Performs(c, b, d)
    ensures Performs(g, a + b, d)
  {
    PlanConcat(g, a, b);
  }

  /** Replaying a valid plan in reverse returns every pallet to where it was:
      the grid is the one before the plan. */
  lemma {:induction false} RoundTrip(g: Cells, ms: seq<Move>)
    requires Shaped(g) && ValidPlan(g, ms)
    ensures Undo(ApplyPlan(g, ms), ms) == g
    decreases |ms|
  {
    if |ms| > 0 {
      var p := ms[..|ms| - 1];
      var m := ms[|ms| - 1];
      var h := ApplyPlan(g, p);
      StepBack(h, m);
      assert Undo(ApplyPlan(g, ms), ms) == Undo(h, p);
      RoundTrip(g, p);
    }
  }

  /** Setting a cell that no move touches commutes with the reverse replay. */
  lemma {:induction false} UndoSet(h: Cells, ms: seq<Move>, t: Coord, v: bool)
    requires Shaped(h) && InGridPlan(ms) && InGrid(t) && NotEndpoint(t, ms)
    ensures Undo(Set(h, t, v), ms) == Set(Undo(h, ms), t, v)
    decreases |ms|
  {
    if |ms| > 0 {
      var p := ms[..|ms| - 1];
      var m := ms[|ms| - 1];
      StepSetCommute(h, m.dest, m.orig, t, v);
      UndoSet(Step(h, m.dest, m.orig), p, t, v);
    }
  }

  /** A cell that no move of a plan touches keeps its value. */
  lemma {:induction false} PlanKeeps(g: Cells, ms: seq<Move>, t: Coord)
    requires Shaped(g) && InGridPlan(ms) && InGrid(t) && NotEndpoint(t, ms)
    ensures Get(ApplyPlan(g, ms), t) == Get(g, t)
    decreases |ms|
  {
    if |ms| > 0 {
      PlanKeeps(g, ms[..|ms| - 1], t);
    }
  }

  /** After a plan, the origin of every move is free, provided no later move
      of the plan brings a pallet into it. */
  lemma {:induction false} OriginsCleared(g: Cells, ms: seq<Move>)
    requires Shaped(g) && InGridPlan(ms)
    requires forall k, j :: 0 <= k < j < |ms| ==> ms[j].dest != ms[k].orig
    ensures forall k :: 0 <= k < |ms| ==> !Get(ApplyPlan(g, ms), ms[k].orig)
    decreases |ms|
  {
    if |ms| > 0 {
      var p := ms[..|ms| - 1];
      var m := ms[|ms| - 1];
      assert forall k :: 0 <= k < |p| ==> p[k] == ms[k];
      OriginsCleared(g, p);
      forall k | 0 <= k < |ms|
        ensures !Get(ApplyPlan(g, ms), ms[k].orig)
      {
        if k < |ms| - 1 {
          assert ms[k].orig != m.dest;
          assert !Get(ApplyPlan(g, p), p[k].orig);
        }
      }
    }
  }

  /** Performing a valid plan, setting a cell the plan does not touch, and
      replaying the plan in reverse amounts to setting that one cell. */
  lemma PlanAroundSet(g: Cells, ms: seq<Move>, t: Coord, v: bool)
    requires Shaped(g) && ValidPlan(g, ms) && InGrid(t) && NotEndpoint(t, ms)
    ensures Undo(Set(ApplyPlan(g, ms), t, v), ms) == Set(g, t, v)
  {
    UndoSet(ApplyPlan(g, ms), ms, t, v);
    RoundTrip(g, ms);
  }

  // ---- Occupancy counts ----

  /** Number of occupied cells in a row. */
  function Occupied(row: seq<bool>): (n: nat)
    ensures n <= |row|
  {
    if |row| == 0 then 0 else (if row[0] then 1 else 0) + Occupied(row[1..])
  }

  lemma {:induction false} OccupiedConcat(a: seq<bool>, b: seq<bool>)
    ensures Occupied(a + b) == Occupied(a) + Occupied(b)
    decreases |a|
  {
    if |a| > 0 {
      assert (a + b)[1..] == a[1..] + b;
      OccupiedConcat(a[1..], b);
    } else {
      assert a + b == b;
    }
  }

  /** Changing one cell of a row changes its count by the difference. */
  lemma {:induction false} OccupiedUpdate(row: seq<bool>, i: int, v: bool)
    requires 0 <= i < |row|
    ensures Occupied(row[i := v]) + (if row[i] then 1 else 0) == Occupied(row) + (if v then 1 else 0)
    decreases |row|
  {
    if i > 0 {
      assert row[i := v][1..] == row[1..][i - 1 := v];
      OccupiedUpdate(row[1..], i - 1, v);
    } else {
      assert row[i := v][1..] == row[1..];
    }
  }

  function Falses(n: nat): (r: seq<bool>)
    ensures |r| == n && forall i :: 0 <= i < n ==> !r[i]
  {
    seq(n, _ => false)
  }

  function Trues(n: nat): (r: seq<bool>)
    ensures |r| == n && forall i :: 0 <= i < n ==> r[i]
  {
    seq(n, _ => true)
  }

  lemma {:induction false} OccupiedFalses(n: nat)
    ensures Occupied(Falses(n)) == 0
  {
    if n > 0 {
      assert Falses(n)[1..] == Falses(n - 1);
      OccupiedFalses(n - 1);
    }
  }

  lemma {:induction false} OccupiedTrues(n: nat)
    ensures Occupied(Trues(n)) == n
  {
    if n > 0 {
      assert Trues(n)[1..] == Trues(n - 1);
      OccupiedTrues(n - 1);
    }
  }

  /** Number of occupied cells in the whole grid. */
  function TotalOccupied(g: Cells): nat {
    if |g| == 0 then 0 else Occupied(g[0]) + TotalOccupied(g[1..])
  }

  lemma {:induction false} TotalRowUpdate(g: Cells, f: int, row: seq<bool>)
    requires 0 <= f < |g|
    ensures TotalOccupied(g[f := row]) + Occupied(g[f]) == TotalOccupied(g) + Occupied(row)
    decreases |g|
  {
    if f > 0 {
      assert g[f := row][1..] == g[1..][f - 1 := row];
      TotalRowUpdate(g[1..], f - 1, row);
    } else {
      assert g[f := row][1..] == g[1..];
    }
  }

  lemma TotalSet(g: Cells, c: Coord, v: bool)
    requires Shaped(g) && InGrid(c)
    ensures TotalOccupied(Set(g, c, v)) + (if Get(g, c) then 1 else 0) == TotalOccupied(g) + (if v then 1 else 0)
  {
    TotalRowUpdate(g, c.floor, g[c.floor][c.slot := v]);
    OccupiedUpdate(g[c.floor], c.slot, v);
  }

  /** A valid move neither creates nor destroys a pallet. */
  lemma StepPreservesTotal(g: Cells, m: Move)
    requires Shaped(g) && ValidMove(g, m)
    ensures TotalOccupied(Step(g, m.orig, m.dest)) == TotalOccupied(g)
  {
    var h := Set(g, m.dest, true);
    TotalSet(g, m.dest, true);
    TotalSet(h, m.orig, false);
  }

  /** A valid plan neither creates nor destroys a pallet. */
  lemma {:induction false} PlanPreservesTotal(g: Cells, ms: seq<Move>)
    requires Shaped(g) && ValidPlan(g, ms)
    ensures TotalOccupied(ApplyPlan(g, ms)) == TotalOccupied(g)
    decreases |ms|
  {
    if |ms| > 0 {
      var p := ms[..|ms| - 1];
      PlanPreservesTotal(g, p);
      StepPreservesTotal(ApplyPlan(g, p), ms[|ms| - 1]);
    }
  }
}
