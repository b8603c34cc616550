/** Blocking detection: the occupied slots between the lane opening and a
    target slot on the same floor. */
module Blocking {
  import opened Grid
  import opened Sorting

  /** The occupied slots among the first `n` slots of `floor` (0-based), as
      1-based coordinates in the order the scan meets them. */
  function Blockers(g: Cells, floor: int, n: int): seq<Coord>
    requires Shaped(g) && 0 <= floor < FLOORS && 0 <= n <= SLOTS
    decreases n
  {
    if n == 0 then []
    else Blockers(g, floor, n - 1) + (if g[floor][n - 1] then [Coord(floor + 1, n)] else [])
  }

  /** A coordinate is a blocker exactly when it is an occupied slot of the
      same floor strictly before the target. */
  lemma {:induction false} BlockersMembers(g: Cells, floor: int, n: int)
    requires Shaped(g) && 0 <= floor < FLOORS && 0 <= n <= SLOTS
    ensures forall c {:trigger c in Blockers(g, floor, n)} :: c in Blockers(g, floor, n) <==>
              c.floor == floor + 1 && 1 <= c.slot <= n && g[floor][c.slot - 1]
    decreases n
  {
    if n > 0 {
      BlockersMembers(g, floor, n - 1);
      var p := Blockers(g, floor, n - 1);
      var last := if g[floor][n - 1] then [Coord(floor + 1, n)] else [];
      assert Blockers(g, floor, n) == p + last;
      forall c: Coord
        ensures c in p + last <==> c.floor == floor + 1 && 1 <= c.slot <= n && g[floor][c.slot - 1]
      {
        assert c in p + last <==> c in p || c in last;
        assert c in last <==> g[floor][n - 1] && c == Coord(floor + 1, n);
      }
    }
  }

  /** Blockers come in ascending slot order, all on the target's floor; so
      they are strictly ascending as `(floor, slot)` tuples and `sorted`
      leaves them as they are. */
  lemma {:induction false} BlockersAscending(g: Cells, floor: int, n: int)
    requires Shaped(g) && 0 <= floor < FLOORS && 0 <= n <= SLOTS
    ensures var b := Blockers(g, floor, n);
      forall i, j :: 0 <= i < j < |b| ==> b[i].floor == b[j].floor && b[i].slot < b[j].slot
    ensures StrictlyAscending(Blockers(g, floor, n))
    decreases n
  {
    if n > 0 {
      BlockersAscending(g, floor, n - 1);
      BlockersMembers(g, floor, n - 1);
      var p := Blockers(g, floor, n - 1);
      assert forall i :: 0 <= i < |p| ==> p[i] in p;
    }
  }

  /** `check_blocking_infloor`: scans the slots before `slot` (0-based) on
      `floor` and lists the occupied ones, 1-based. */
  method CheckBlockingInFloor(g: Cells, floor: int, slot: int) returns (blocking: seq<Coord>)
    requires Shaped(g) && 0 <= floor < FLOORS && 0 <= slot <= SLOTS
    ensures blocking == Blockers(g, floor, slot)
    ensures forall c {:trigger c in blocking} :: c in blocking <==> c.floor == floor + 1 && 1 <= c.slot <= slot && g[floor][c.slot - 1]
    ensures forall i, j :: 0 <= i < j < |blocking| ==> blocking[i].floor == blocking[j].floor && blocking[i].slot < blocking[j].slot
    ensures Coord(floor + 1, slot + 1) !in blocking
  {
    blocking := [];
    for s := 0 to slot
      invariant blocking == Blockers(g, floor, s)
    {
      if g[floor][s] {
        blocking := blocking + [Coord(floor + 1, s + 1)];
      }
    }
    BlockersMembers(g, floor, slot);
    BlockersAscending(g, floor, slot);
  }
}
