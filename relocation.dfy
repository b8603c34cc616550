/** The relocation engine: the warehouse grid as an object whose cells the
    operations update in place, the single-pallet moves, the two passes that
    clear the lane to a slot, the replay that puts everything back, and the
    `adding` / `removing` transactions built from them. */
module Relocation {
  import opened Grid
  import opened Sorting
  import opened Blocking
  import opened Finder
  import opened Strategy
  import opened Consolidation
  import opened Passes

  /** How a transaction ended; the engine reports each as a message. */
  datatype Status =
    | Placed          // no blockers: the target cell was written directly
    | Cancelled       // the operator declined at the confirmation prompt
    | NotEnoughSlots  // the first destination pool is shorter than the blocker list
    | NoSlotForBlocker // the recomputed pool ran out in the cross-floor pass
    | Completed       // lane cleared, cell written, every move replayed back

  /** `dict[f]` lists of candidate slots, one per floor, built from the sorted
      pool: entry `f - 1` is the list of floor `f`. */
  method BuildCandidates(tempEmpty: seq<Coord>) returns (cand: seq<seq<int>>)
    requires forall k :: 0 <= k < |tempEmpty| && tempEmpty[k].slot > 0 ==> 1 <= tempEmpty[k].floor <= FLOORS
    ensures |cand| == FLOORS
    ensures forall f :: 0 <= f < FLOORS ==> cand[f] == SlotsOn(tempEmpty, f + 1)
  {
    cand := seq(FLOORS, _ => []);
    for i := 0 to |tempEmpty|
      invariant |cand| == FLOORS
      invariant forall f :: 0 <= f < FLOORS ==> cand[f] == SlotsOn(tempEmpty[..i], f + 1)
    {
      assert tempEmpty[..i + 1][..i] == tempEmpty[..i];
      var c := tempEmpty[i];
      if c.slot > 0 {
        cand := cand[c.floor - 1 := cand[c.floor - 1] + [c.slot]];
      }
    }
    assert tempEmpty[..|tempEmpty|] == tempEmpty;
  }

  /** The warehouse: FLOORS rows of SLOTS cells, true where a pallet is. */
  class Warehouse {
    var cells: Cells

    predicate Valid()
      reads this
    {
      Shaped(cells)
    }

    /** A warehouse holding the grid `g`, as read from the saved state or
        freshly created empty. */
    constructor(g: Cells)
      requires Shaped(g)
      ensures Valid() && cells == g
    {
      cells := g;
    }

    /** The logical change of `animate_move`: the destination takes the
        source's value and the source is cleared. */
    method AnimateMove(src: Coord, dst: Coord)
      requires Valid() && InGrid(src) && InGrid(dst)
      modifies this
      ensures Valid()
      ensures cells == Step(old(cells), src, dst)
    {
      cells := cells[dst.floor := cells[dst.floor][dst.slot := cells[src.floor][src.slot]]];
      cells := cells[src.floor := cells[src.floor][src.slot := false]];
    }

    /** `moveinside`: moves the pallet at `slot` of `floor` to `target` on the
        same floor, only when the source holds a pallet and the target is
        free; reports whether it moved. */
    method MoveInside(floor: int, slot: int, target: int) returns (moved: bool)
      requires Valid() && 0 <= floor < FLOORS && 0 <= slot < SLOTS && 0 <= target < SLOTS
      modifies this
      ensures Valid()
      ensures moved <==> old(cells[floor][slot]) && !old(cells[floor][target])
      ensures moved ==> cells == Step(old(cells), Coord(floor, slot), Coord(floor, target))
      ensures !moved ==> cells == old(cells)
    {
      if cells[floor][slot] && !cells[floor][target] {
        AnimateMove(Coord(floor, slot), Coord(floor, target));
        moved := true;
      } else {
        moved := false;
      }
    }

    /** One floor of the consolidation pass: scanning from the highest listed
        slot `top` (1-based) down to slot 1, each pallet met is moved with
        `moveinside` to the current target, which then drops by one. The
        target is always above the scan and free, so every recorded move
        succeeds. */
    method ConsolidateFloor(f: int, top: int) returns (ms: seq<Move>)
      requires Valid() && 0 <= f < FLOORS && 1 <= top <= SLOTS && !cells[f][top - 1]
      modifies this
      ensures Valid()
      ensures cells == old(cells)[f := Pack(old(cells)[f], top)]
      ensures Performs(old(cells), ms, cells)
      ensures UpwardOnFloor(ms, f, top)
    {
      ghost var g0 := cells;
      FloorScanInit(g0, f, top);
      var target := top;
      ms := [];
      var s := top;
      while s > 0
        invariant Valid() && FloorScan(g0, f, top, s, target, ms, cells)
        decreases s
      {
        if cells[f][s - 1] {
          MoveToTarget(f, s, target, g0, top, ms);
          ms := ms + [Move(Coord(f, s - 1), Coord(f, target - 1))];
          target := target - 1;
        } else {
          FloorScanSkip(g0, f, top, s, target, ms, cells);
        }
        s := s - 1;
      }
      FloorScanDone(g0, f, top, target, ms, cells);
    }

    /** One pallet met by the scan of `ConsolidateFloor`: `moveinside` takes
        it from slot `s` (1-based) to the target `t`, and always succeeds. */
    method MoveToTarget(f: int, s: int, t: int, ghost g0: Cells, ghost top: int, ghost ms: seq<Move>)
      requires Valid() && FloorScan(g0, f, top, s, t, ms, cells) && s > 0 && cells[f][s - 1]
      modifies this
      ensures Valid()
      ensures FloorScan(g0, f, top, s - 1, t - 1, ms + [Move(Coord(f, s - 1), Coord(f, t - 1))], cells)
    {
      FloorScanMove(g0, f, top, s, t, ms, cells);
      ghost var next := Step(cells, Coord(f, s - 1), Coord(f, t - 1));
      var moved := MoveInside(f, s - 1, t - 1);
      assert moved && cells == next;
    }

    /** The consolidation pass: the pool is sorted in descending order, its
        slots are gathered per floor, and every floor with a listed slot is
        packed up to its highest listed slot, floors in ascending order. The
        request floor has no listed slot and is left alone. */
    method Consolidate(floor: int, empty: seq<Coord>) returns (ms: seq<Move>)
      requires Valid() && 0 <= floor < FLOORS && PoolOk(cells, floor, empty)
      modifies this
      ensures Valid() && InGridPool(empty)
      ensures cells == Consolidated(old(cells), empty)
      ensures Performs(old(cells), ms, cells) && OffFloor(ms, floor)
      ensures cells[floor] == old(cells)[floor]
    {
      var tempEmpty := SortDescending(empty);
      SortedPoolFloors(cells, floor, empty, tempEmpty);
      var cand := BuildCandidates(tempEmpty);
      CandidatesListTops(tempEmpty, empty, cand);
      ms := PackFloors(floor, empty, cand);
      PoolOffFloor(old(cells), floor, empty);
      ConsolidatedFloors(old(cells), empty);
    }

    /** The loop of the consolidation pass over floors `1 .. FLOORS`, given
        the candidate lists `cand` built from the pool. */
    method PackFloors(floor: int, empty: seq<Coord>, cand: seq<seq<int>>) returns (ms: seq<Move>)
      requires Valid() && 0 <= floor < FLOORS && PoolOk(cells, floor, empty)
      requires ListsTops(empty, cand)
      modifies this
      ensures Valid() && InGridPool(empty)
      ensures cells == Consolidated(old(cells), empty)
      ensures Performs(old(cells), ms, cells) && OffFloor(ms, floor)
    {
      PoolPassInit(cells, empty, floor);
      ms := [];
      for f := 1 to FLOORS + 1
        invariant PoolPass(old(cells), empty, floor, f - 1, ms, cells)
      {
        if cand[f - 1] != [] {
          var top := MaxOf(cand[f - 1]);
          assert top == FloorTop(empty, f);
          var fm := PackListedFloor(floor, empty, f - 1, top, old(cells), ms);
          ms := ms + fm;
        } else {
          PoolPassSkip(old(cells), empty, floor, f - 1, ms, cells);
        }
      }
      PoolPassDone(old(cells), empty, floor, ms, cells);
    }

    /** One turn of the consolidation loop: floor `n` (0-based), which the
        pool lists with highest slot `top`, is packed. */
    method PackListedFloor(floor: int, empty: seq<Coord>, n: int, top: int, ghost g0: Cells, ghost ms: seq<Move>)
      returns (fm: seq<Move>)
      requires Valid() && 0 <= floor < FLOORS && Shaped(g0) && PoolOk(g0, floor, empty) && InGridPool(empty)
      requires 0 <= n < FLOORS && top == FloorTop(empty, n + 1) && top > 0
      requires PoolPass(g0, empty, floor, n, ms, cells)
      modifies this
      ensures Valid()
      ensures PoolPass(g0, empty, floor, n + 1, ms + fm, cells)
    {
      PoolPassTop(g0, empty, floor, n, ms, cells);
      ghost var c := cells;
      fm := ConsolidateFloor(n, top);
      PoolPassPacked(g0, empty, floor, n, ms, c, top, fm, cells);
    }

    /** The cross-floor pass: a fresh greedy pool is computed and sorted in
        descending order; the blockers, in ascending order, each go to the
        first (largest) remaining candidate, which is then removed from the
        list. When no candidate is left the pass stops, leaving the moves made
        so far in place. */
    method RelocateBlockers(floor: int, blocking: seq<Coord>) returns (ms: seq<Move>, ranOut: bool)
      requires Valid() && 0 <= floor < FLOORS && BlockersOk(cells, floor, blocking)
      modifies this
      ensures Valid()
      ensures var cands := SortDescending(GreedySlots(old(cells), floor, |blocking|));
        (ranOut <==> |cands| < |blocking|) && ms == BlockerMoves(blocking, cands)
      ensures Performs(old(cells), ms, cells)
      ensures forall k :: 0 <= k < |ms| ==> ms[k].orig == ToIndex(blocking[k]) && ms[k].dest.floor != floor
    {
      var newEmpty := FindEmptySlotsNormal(cells, floor, |blocking|);
      var tempNewEmpty := SortDescending(newEmpty);
      ghost var cands := tempNewEmpty;
      GreedyPool(cells, floor, |blocking|);
      SortDescendingSpec(newEmpty);
      PoolOkSameElements(cells, floor, newEmpty, cands);
      RelocatingInit(cells, floor, blocking, cands);
      ms := [];
      ranOut := false;
      for i := 0 to |blocking|
        invariant Relocating(old(cells), floor, blocking, cands, i, ms, cells)
        invariant tempNewEmpty == cands[i..]
      {
        var block := blocking[i];
        // the copy of the remaining candidates taken on every turn
        var candidates := tempNewEmpty;
        if |candidates| == 0 {
          ranOut := true;
          RelocatingDone(old(cells), floor, blocking, cands, i, ms, cells);
          return;
        }
        var target := candidates[0];
        RelocatingMove(old(cells), floor, blocking, cands, i, ms, cells);
        AnimateMove(ToIndex(block), ToIndex(target));
        ms := ms + [Move(ToIndex(block), ToIndex(target))];
        tempNewEmpty := RemoveFirst(tempNewEmpty, target);
      }
      RelocatingDone(old(cells), floor, blocking, cands, |blocking|, ms, cells);
    }

    /** The replay: the recorded moves in reverse order, each one moving the
        pallet from its destination back to its origin. */
    method Restore(moves: seq<Move>)
      requires Valid() && InGridPlan(moves)
      modifies this
      ensures Valid()
      ensures cells == Undo(old(cells), moves)
    {
      var i := |moves|;
      assert moves[..i] == moves;
      while i > 0
        invariant 0 <= i <= |moves|
        invariant Valid()
        invariant Undo(cells, moves[..i]) == Undo(old(cells), moves)
      {
        assert moves[..i][..i - 1] == moves[..i - 1];
        i := i - 1;
        var m := moves[i];
        AnimateMove(m.dest, m.orig);
      }
    }

    /** Clearing the lane and writing the cell: consolidation over the first
        pool, the cross-floor pass, the write, and the replay. When the
        cross-floor pass runs out, the moves made so far stay in place and
        the cell is not written. */
    method ClearLane(floor: int, slot: int, v: bool, blocking: seq<Coord>, empty: seq<Coord>)
      returns (moves: seq<Move>, ranOut: bool)
      requires Valid() && 0 <= floor < FLOORS && 0 <= slot < SLOTS
      requires blocking == Blockers(cells, floor, slot) && PoolOk(cells, floor, empty)
      modifies this
      ensures Valid() && InGridPool(empty)
      ensures ranOut <==> |GreedySlots(Consolidated(old(cells), empty), floor, |blocking|)| < |blocking|
      ensures ValidPlan(old(cells), moves) && NotEndpoint(Coord(floor, slot), moves)
      ensures var second := SecondPool(old(cells), floor, empty, |blocking|);
        var k := |moves| - Min(|blocking|, |second|);
        0 <= k && moves[k..] == BlockerMoves(blocking, second) &&
        Performs(old(cells), moves[..k], Consolidated(old(cells), empty)) && OffFloor(moves[..k], floor)
      ensures !ranOut ==> forall s :: 0 <= s < slot ==> !Get(ApplyPlan(old(cells), moves), Coord(floor, s))
      ensures ranOut ==> cells == ApplyPlan(old(cells), moves)
      ensures ranOut ==>
        Performs(Consolidated(old(cells), empty), BlockerMoves(blocking, SecondPool(old(cells), floor, empty, |blocking|)), cells)
      ensures !ranOut ==> cells == Set(old(cells), Coord(floor, slot), v)
    {
      moves, ranOut := MoveBlockersAway(floor, slot, blocking, empty);
      if ranOut {
        return;
      }
      cells := Set(cells, Coord(floor, slot), v);
      Restore(moves);
      PlanAroundSet(old(cells), moves, Coord(floor, slot), v);
    }

    /** The two passes that clear the lane: consolidation over the first
        pool, then the cross-floor pass over the sorted blocker list. */
    method MoveBlockersAway(floor: int, slot: int, blocking: seq<Coord>, empty: seq<Coord>)
      returns (moves: seq<Move>, ranOut: bool)
      requires Valid() && 0 <= floor < FLOORS && 0 <= slot < SLOTS
      requires blocking == Blockers(cells, floor, slot) && PoolOk(cells, floor, empty)
      modifies this
      ensures Valid() && InGridPool(empty)
      ensures ranOut <==> |GreedySlots(Consolidated(old(cells), empty), floor, |blocking|)| < |blocking|
      ensures Performs(old(cells), moves, cells) && NotEndpoint(Coord(floor, slot), moves)
      ensures var second := SecondPool(old(cells), floor, empty, |blocking|);
        var k := |moves| - Min(|blocking|, |second|);
        0 <= k && moves[k..] == BlockerMoves(blocking, second) &&
        Performs(old(cells), moves[..k], Consolidated(old(cells), empty)) && OffFloor(moves[..k], floor)
      ensures Performs(Consolidated(old(cells), empty), BlockerMoves(blocking, SecondPool(old(cells), floor, empty, |blocking|)), cells)
      ensures !ranOut ==> forall s :: 0 <= s < slot ==> !Get(cells, Coord(floor, s))
    {
      BlockersAreOk(cells, floor, slot);
      var tempBlocking := SortAscending(blocking);
      SortAscendingSorted(blocking);
      var consolidation := Consolidate(floor, empty);
      ghost var h := cells;
      BlockersStay(old(cells), h, floor, tempBlocking);
      var relocation;
      relocation, ranOut := RelocateBlockers(floor, tempBlocking);
      LanePlan(old(cells), floor, slot, blocking, consolidation, h, relocation, cells);
      if !ranOut {
        LaneCleared(old(cells), h, floor, slot, blocking, relocation, cells);
      }
      moves := consolidation + relocation;
      assert moves[..|consolidation|] == consolidation;
      assert moves[|consolidation|..] == relocation;
    }

    /** `adding` (with `v` true) and `removing` (with `v` false). The search
        strategy is not modelled: `optunaCompared` is its list in the cost
        comparison, `optunaPool` its list for the first pool. `confirm` is
        the operator's answer at the prompt. */
    method Transaction(floor: int, slot: int, v: bool, confirm: bool,
                       optunaCompared: seq<Coord>, optunaPool: seq<Coord>)
      returns (status: Status, choice: Choice)
      requires Valid() && 0 <= floor < FLOORS && 0 <= slot < SLOTS
      requires PoolOk(cells, floor, optunaPool)
      modifies this
      ensures Valid()
      ensures var b := Blockers(old(cells), floor, slot);
        var pool := FirstPool(old(cells), floor, |b|, choice, optunaPool);
        choice == Compared(old(cells), 0, b, optunaCompared, SLOT_TIME, FLOOR_TIME) &&
        (status == Placed <==> |b| == 0) &&
        (status == Cancelled <==> |b| > 0 && !confirm) &&
        (status == NotEnoughSlots <==> |b| > 0 && confirm && |pool| < |b|) &&
        (status == NoSlotForBlocker <==>
           (|b| > 0 && confirm && |pool| >= |b| && |GreedySlots(Consolidated(old(cells), pool), floor, |b|)| < |b|))
      ensures status == Placed || status == Completed ==> cells == Set(old(cells), Coord(floor, slot), v)
      ensures status == Cancelled || status == NotEnoughSlots ==> cells == old(cells)
      ensures status == NoSlotForBlocker ==>
        TotalOccupied(cells) == TotalOccupied(old(cells)) && Get(cells, Coord(floor, slot)) == Get(old(cells), Coord(floor, slot))
      ensures status == NoSlotForBlocker ==>
        var b := Blockers(old(cells), floor, slot);
        var pool := FirstPool(old(cells), floor, |b|, choice, optunaPool);
        Performs(Consolidated(old(cells), pool), BlockerMoves(b, SecondPool(old(cells), floor, pool, |b|)), cells)
    {
      var blocking := CheckBlockingInFloor(cells, floor, slot);
      choice := CompareStrategies(cells, 0, blocking, optunaCompared, SLOT_TIME, FLOOR_TIME);
      if |blocking| == 0 {
        cells := Set(cells, Coord(floor, slot), v);
        return Placed, choice;
      }
      if !confirm {
        return Cancelled, choice;
      }
      var empty: seq<Coord>;
      if choice == Normal {
        empty := FindEmptySlotsNormal(cells, floor, |blocking|);
      } else {
        empty := optunaPool;
      }
      assert empty == FirstPool(cells, floor, |blocking|, choice, optunaPool);
      if |empty| < |blocking| {
        return NotEnoughSlots, choice;
      }
      var moves, ranOut := ClearLane(floor, slot, v, blocking, empty);
      if ranOut {
        PlanPreservesTotal(old(cells), moves);
        PlanKeeps(old(cells), moves, Coord(floor, slot));
        return NoSlotForBlocker, choice;
      }
      status := Completed;
    }

    /** `adding`: puts a pallet at `slot` of `floor`. */
    method Adding(floor: int, slot: int, confirm: bool, optunaCompared: seq<Coord>, optunaPool: seq<Coord>)
      returns (status: Status, choice: Choice)
      requires Valid() && 0 <= floor < FLOORS && 0 <= slot < SLOTS
      requires PoolOk(cells, floor, optunaPool)
      modifies this
      ensures Valid()
      ensures var b := Blockers(old(cells), floor, slot);
        var pool := FirstPool(old(cells), floor, |b|, choice, optunaPool);
        choice == Compared(old(cells), 0, b, optunaCompared, SLOT_TIME, FLOOR_TIME) &&
        (status == Placed <==> |b| == 0) &&
        (status == Cancelled <==> |b| > 0 && !confirm) &&
        (status == NotEnoughSlots <==> |b| > 0 && confirm && |pool| < |b|) &&
        (status == NoSlotForBlocker <==>
           (|b| > 0 && confirm && |pool| >= |b| && |GreedySlots(Consolidated(old(cells), pool), floor, |b|)| < |b|))
      ensures status == Placed || status == Completed ==> cells == Set(old(cells), Coord(floor, slot), true)
      ensures status == Cancelled || status == NotEnoughSlots ==> cells == old(cells)
      ensures status == NoSlotForBlocker ==>
        TotalOccupied(cells) == TotalOccupied(old(cells)) && Get(cells, Coord(floor, slot)) == Get(old(cells), Coord(floor, slot))
      ensures status == NoSlotForBlocker ==>
        var b := Blockers(old(cells), floor, slot);
        var pool := FirstPool(old(cells), floor, |b|, choice, optunaPool);
        Performs(Consolidated(old(cells), pool), BlockerMoves(b, SecondPool(old(cells), floor, pool, |b|)), cells)
    {
      status, choice := Transaction(floor, slot, true, confirm, optunaCompared, optunaPool);
    }

    /** `removing`: takes the pallet out of `slot` of `floor`. */
    method Removing(floor: int, slot: int, confirm: bool, optunaCompared: seq<Coord>, optunaPool: seq<Coord>)
      returns (status: Status, choice: Choice)
      requires Valid() && 0 <= floor < FLOORS && 0 <= slot < SLOTS
      requires PoolOk(cells, floor, optunaPool)
      modifies this
      ensures Valid()
      ensures var b := Blockers(old(cells), floor, slot);
        var pool := FirstPool(old(cells), floor, |b|, choice, optunaPool);
        choice == Compared(old(cells), 0, b, optunaCompared, SLOT_TIME, FLOOR_TIME) &&
        (status == Placed <==> |b| == 0) &&
        (status == Cancelled <==> |b| > 0 && !confirm) &&
        (status == NotEnoughSlots <==> |b| > 0 && confirm && |pool| < |b|) &&
        (status == NoSlotForBlocker <==>
           (|b| > 0 && confirm && |pool| >= |b| && |GreedySlots(Consolidated(old(cells), pool), floor, |b|)| < |b|))
      ensures status == Placed || status == Completed ==> cells == Set(old(cells), Coord(floor, slot), false)
      ensures status == Cancelled || status == NotEnoughSlots ==> cells == old(cells)
      ensures status == NoSlotForBlocker ==>
        TotalOccupied(cells) == TotalOccupied(old(cells)) && Get(cells, Coord(floor, slot)) == Get(old(cells), Coord(floor, slot))
      ensures status == NoSlotForBlocker ==>
        var b := Blockers(old(cells), floor, slot);
        var pool := FirstPool(old(cells), floor, |b|, choice, optunaPool);
        Performs(Consolidated(old(cells), pool), BlockerMoves(b, SecondPool(old(cells), floor, pool, |b|)), cells)
    {
      status, choice := Transaction(floor, slot, false, confirm, optunaCompared, optunaPool);
    }
  }

  /** The first destination pool: the greedy list for the request floor, or
      the search strategy's list, as the comparison chose. */
  function FirstPool(g: Cells, floor: int, needed: int, choice: Choice, optunaPool: seq<Coord>): (pool: seq<Coord>)
    requires Shaped(g) && 0 <= floor < FLOORS && PoolOk(g, floor, optunaPool)
    ensures PoolOk(g, floor, pool) && InGridPool(pool)
  {
    GreedyPool(g, floor, needed);
    if choice == Normal then GreedySlots(g, floor, needed) else optunaPool
  }

  /** The destinations of the cross-floor pass, in the order they are taken:
      the greedy list for the request floor over the consolidated grid,
      sorted by descending floor. */
  function SecondPool(g: Cells, floor: int, empty: seq<Coord>, needed: int): seq<Coord>
    requires Shaped(g) && 0 <= floor < FLOORS && InGridPool(empty)
  {
    SortDescending(GreedySlots(Consolidated(g, empty), floor, needed))
  }

  /** No slot of a valid pool lies on the request floor. */
  lemma PoolOffFloor(g: Cells, floor: int, pool: seq<Coord>)
    requires Shaped(g) && PoolOk(g, floor, pool)
    ensures FloorTop(pool, floor + 1) == 0
  {
    forall c | c in pool
      ensures c.floor != floor + 1
    {
      var j :| 0 <= j < |pool| && pool[j] == c;
    }
  }

  /** The blocker list is well formed and lies before the target slot. */
  lemma BlockersAreOk(g: Cells, floor: int, slot: int)
    requires Shaped(g) && 0 <= floor < FLOORS && 0 <= slot <= SLOTS
    ensures BlockersOk(g, floor, Blockers(g, floor, slot))
    ensures forall k :: 0 <= k < |Blockers(g, floor, slot)| ==> Blockers(g, floor, slot)[k].slot <= slot
    ensures StrictlyAscending(Blockers(g, floor, slot))
  {
    var b := Blockers(g, floor, slot);
    BlockersMembers(g, floor, slot);
    BlockersAscending(g, floor, slot);
    assert forall k :: 0 <= k < |b| ==> b[k] in b;
  }

  /** The blockers are still in place when their floor is unchanged. */
  lemma BlockersStay(g: Cells, h: Cells, floor: int, blocking: seq<Coord>)
    requires Shaped(g) && Shaped(h) && 0 <= floor < FLOORS && g[floor] == h[floor]
    requires BlockersOk(g, floor, blocking)
    ensures BlockersOk(h, floor, blocking)
  {
  }

  /** The moves of both passes together form a valid plan that never touches
      the target cell. */
  lemma LanePlan(g0: Cells, floor: int, slot: int, blocking: seq<Coord>,
                 cm: seq<Move>, h: Cells, rm: seq<Move>, c: Cells)
    requires Shaped(g0) && 0 <= floor < FLOORS && 0 <= slot < SLOTS
    requires Shaped(h) && Performs(g0, cm, h) && OffFloor(cm, floor)
    requires Performs(h, rm, c) && |rm| <= |blocking|
    requires forall k :: 0 <= k < |rm| ==> rm[k].orig == ToIndex(blocking[k]) && rm[k].dest.floor != floor
    requires forall k :: 0 <= k < |blocking| ==> blocking[k].slot <= slot
    ensures Performs(g0, cm + rm, c) && NotEndpoint(Coord(floor, slot), cm + rm)
  {
    PerformsConcat(g0, cm, h, rm, c);
    LaneAvoidsTarget(floor, slot, blocking, cm, rm);
  }

  /** Once every blocker has been carried to another floor, the lane before
      the target holds no pallet: the blockers' own slots were emptied by
      their moves, and every other slot of the lane was already free and no
      move touched it. */
  lemma LaneCleared(g0: Cells, h: Cells, floor: int, slot: int, blocking: seq<Coord>, rm: seq<Move>, c: Cells)
    requires Shaped(g0) && Shaped(h) && 0 <= floor < FLOORS && 0 <= slot < SLOTS
    requires blocking == Blockers(g0, floor, slot) && h[floor] == g0[floor]
    requires Performs(h, rm, c) && |rm| == |blocking|
    requires forall k :: 0 <= k < |rm| ==> rm[k].orig == ToIndex(blocking[k]) && rm[k].dest.floor != floor
    ensures forall s :: 0 <= s < slot ==> !Get(c, Coord(floor, s))
  {
    BlockersMembers(g0, floor, slot);
    assert forall k :: 0 <= k < |rm| ==> blocking[k] in blocking;
    OriginsCleared(h, rm);
    forall s | 0 <= s < slot
      ensures !Get(c, Coord(floor, s))
    {
      if g0[floor][s] {
        BlockerSlotCleared(g0, floor, slot, blocking, rm, c, s);
      } else {
        FreeSlotKept(g0, h, floor, slot, blocking, rm, c, s);
      }
    }
  }

  /** An occupied slot of the lane held a blocker, whose move emptied it. */
  lemma BlockerSlotCleared(g0: Cells, floor: int, slot: int, blocking: seq<Coord>, rm: seq<Move>, c: Cells, s: int)
    requires Shaped(g0) && Shaped(c) && 0 <= floor < FLOORS && 0 <= s < slot < SLOTS && g0[floor][s]
    requires blocking == Blockers(g0, floor, slot) && |rm| == |blocking|
    requires forall k :: 0 <= k < |rm| ==> rm[k].orig == ToIndex(blocking[k])
    requires InGridPlan(rm) && forall k :: 0 <= k < |rm| ==> !Get(c, rm[k].orig)
    ensures !Get(c, Coord(floor, s))
  {
    BlockersMembers(g0, floor, slot);
    assert Coord(floor + 1, s + 1) in blocking;
    var k :| 0 <= k < |blocking| && blocking[k] == Coord(floor + 1, s + 1);
    assert rm[k].orig == Coord(floor, s);
  }

  /** A free slot of the lane is no blocker's slot and no destination, so the
      plan leaves it free. */
  lemma FreeSlotKept(g0: Cells, h: Cells, floor: int, slot: int, blocking: seq<Coord>, rm: seq<Move>, c: Cells, s: int)
    requires Shaped(g0) && Shaped(h) && 0 <= floor < FLOORS && 0 <= s < slot < SLOTS && !g0[floor][s]
    requires blocking == Blockers(g0, floor, slot) && h[floor] == g0[floor]
    requires Performs(h, rm, c) && |rm| == |blocking|
    requires forall k :: 0 <= k < |rm| ==> rm[k].orig == ToIndex(blocking[k]) && rm[k].dest.floor != floor
    ensures !Get(c, Coord(floor, s))
  {
    BlockersMembers(g0, floor, slot);
    assert forall k :: 0 <= k < |rm| ==> blocking[k] in blocking;
    PlanKeeps(h, rm, Coord(floor, s));
  }

  /** Consolidation moves stay off the request floor, and every cross-floor
      move starts at a blocker, below the target, and ends on another floor. */
  lemma LaneAvoidsTarget(floor: int, slot: int, blocking: seq<Coord>, cm: seq<Move>, rm: seq<Move>)
    requires OffFloor(cm, floor) && |rm| <= |blocking|
    requires forall k :: 0 <= k < |rm| ==> rm[k].orig == ToIndex(blocking[k]) && rm[k].dest.floor != floor
    requires forall k :: 0 <= k < |blocking| ==> blocking[k].slot <= slot
    ensures NotEndpoint(Coord(floor, slot), cm + rm)
  {
    forall k | 0 <= k < |cm + rm|
      ensures (cm + rm)[k].orig != Coord(floor, slot) && (cm + rm)[k].dest != Coord(floor, slot)
    {
      if k >= |cm| {
        assert (cm + rm)[k] == rm[k - |cm|];
      }
    }
  }

  /** Writing a cell and then writing back its old value restores the grid:
      adding a pallet to a free slot and removing it again, or the other way
      round, is a round trip. */
  lemma SetBack(g: Cells, t: Coord, v: bool)
    requires Shaped(g) && InGrid(t)
    ensures Set(Set(g, t, v), t, Get(g, t)) == g
  {
    GridExt(Set(Set(g, t, v), t, Get(g, t)), g);
  }

  /** The grids `adding` and then `removing` leave when both end placed or
      completed: from a free target, the warehouse is back where it started.
      From an occupied target it is not, since removing frees a cell that was
      full before. */
  lemma AddThenRemove(g: Cells, t: Coord, added: Cells, removed: Cells)
    requires Shaped(g) && InGrid(t)
    requires added == Set(g, t, true) && removed == Set(added, t, false)
    ensures removed == g <==> !Get(g, t)
  {
    SetBack(g, t, true);
    if removed == g {
      assert !Get(removed, t);
    }
  }
}
