/** The cost comparison that picks the strategy for the first destination
    pool: a time estimate summed over (blocker, assigned slot) pairs, and the
    rule that keeps the greedy strategy unless the search result is strictly
    cheaper. Costs are whole numbers: every constant involved is integral. */
module Strategy {
  import opened Grid
  import opened Finder

  /** The times `adding` and `removing` pass to the comparison. */
  const FLOOR_TIME: int := 100
  const SLOT_TIME: int := 15
  /** The fixed handling time of one move. */
  const HANDLING_TIME: int := 10

  function Abs(x: int): nat {
    if x < 0 then -x else x
  }

  function Min(a: int, b: int): int {
    if a < b then a else b
  }

  /** The estimated time of taking the pallet at `from` to `to`: a floor
      change is paid twice (up and back), slots once, plus handling. */
  function PairCost(from: Coord, to: Coord, floorTime: int, slotTime: int): int {
    2 * Abs(from.floor - to.floor) * floorTime + Abs(from.slot - to.slot) * slotTime + HANDLING_TIME
  }

  /** The cost of the first `n` pairs of `zip(blocking, assignments)`. */
  function ZipCost(assignments: seq<Coord>, blocking: seq<Coord>, floorTime: int, slotTime: int, n: int): int
    requires 0 <= n <= |assignments| && n <= |blocking|
    decreases n
  {
    if n == 0 then 0
    else ZipCost(assignments, blocking, floorTime, slotTime, n - 1)
         + PairCost(blocking[n - 1], assignments[n - 1], floorTime, slotTime)
  }

  /** What `total_cost(assignments, blocking)` computes: `zip` stops at the
      shorter list, and pairs are taken position by position as given. */
  function Cost(assignments: seq<Coord>, blocking: seq<Coord>, floorTime: int, slotTime: int): int {
    ZipCost(assignments, blocking, floorTime, slotTime, Min(|assignments|, |blocking|))
  }

  /** Python's `xs[:n]` for `n >= 0`. */
  function Take(xs: seq<Coord>, n: nat): (r: seq<Coord>)
    ensures |r| == Min(|xs|, n)
    ensures forall i :: 0 <= i < |r| ==> r[i] == xs[i]
  {
    if n <= |xs| then xs[..n] else xs
  }

  /** `total_cost`: one loop over the zipped pairs, accumulating. */
  method TotalCost(assignments: seq<Coord>, blocking: seq<Coord>, floorTime: int, slotTime: int)
    returns (cost: int)
    ensures cost == Cost(assignments, blocking, floorTime, slotTime)
  {
    cost := 0;
    var n := Min(|assignments|, |blocking|);
    for i := 0 to n
      invariant cost == ZipCost(assignments, blocking, floorTime, slotTime, i)
    {
      var from, to := blocking[i], assignments[i];
      var floorDiff := Abs(from.floor - to.floor);
      var slotDiff := Abs(from.slot - to.slot);
      cost := cost + 2 * floorDiff * floorTime + slotDiff * slotTime + HANDLING_TIME;
    }
  }

  /** Each pair costs at least the handling time, when the times are not
      negative. */
  lemma {:induction false} ZipCostLower(assignments: seq<Coord>, blocking: seq<Coord>, floorTime: int, slotTime: int, n: int)
    requires 0 <= n <= |assignments| && n <= |blocking|
    requires floorTime >= 0 && slotTime >= 0
    ensures ZipCost(assignments, blocking, floorTime, slotTime, n) >= HANDLING_TIME * n
    decreases n
  {
    if n > 0 {
      ZipCostLower(assignments, blocking, floorTime, slotTime, n - 1);
      var from, to := blocking[n - 1], assignments[n - 1];
      assert 2 * Abs(from.floor - to.floor) * floorTime >= 0;
      assert Abs(from.slot - to.slot) * slotTime >= 0;
    }
  }

  /** The total is at least the handling time times the number of pairs. */
  lemma CostLower(assignments: seq<Coord>, blocking: seq<Coord>, floorTime: int, slotTime: int)
    requires floorTime >= 0 && slotTime >= 0
    ensures Cost(assignments, blocking, floorTime, slotTime) >= HANDLING_TIME * Min(|assignments|, |blocking|)
  {
    ZipCostLower(assignments, blocking, floorTime, slotTime, Min(|assignments|, |blocking|));
  }

  /** Two assignment lists that agree on their first `n` entries cost the same
      over the first `n` pairs. */
  lemma {:induction false} ZipCostAgree(a: seq<Coord>, b: seq<Coord>, blocking: seq<Coord>, floorTime: int, slotTime: int, n: int)
    requires 0 <= n <= |a| && n <= |b| && n <= |blocking|
    requires forall i :: 0 <= i < n ==> a[i] == b[i]
    ensures ZipCost(a, blocking, floorTime, slotTime, n) == ZipCost(b, blocking, floorTime, slotTime, n)
    decreases n
  {
    if n > 0 {
      ZipCostAgree(a, b, blocking, floorTime, slotTime, n - 1);
    }
  }

  /** Cutting the assignments to `needed = len(blocking)` entries before
      costing them changes nothing: `zip` stops at the blockers anyway. */
  lemma TakeNeededCost(assignments: seq<Coord>, blocking: seq<Coord>, floorTime: int, slotTime: int)
    ensures Cost(Take(assignments, |blocking|), blocking, floorTime, slotTime)
         == Cost(assignments, blocking, floorTime, slotTime)
  {
    var t := Take(assignments, |blocking|);
    ZipCostAgree(t, assignments, blocking, floorTime, slotTime, Min(|assignments|, |blocking|));
  }

  /** The cost of the pairs of two concatenated lists, matched position by
      position, is the sum of the costs. */
  lemma {:induction false} ZipCostConcat(a1: seq<Coord>, a2: seq<Coord>, b1: seq<Coord>, b2: seq<Coord>, floorTime: int, slotTime: int, n: int)
    requires |a1| == |b1| && 0 <= n <= |a2| && n <= |b2|
    ensures ZipCost(a1 + a2, b1 + b2, floorTime, slotTime, |a1| + n)
         == ZipCost(a1, b1, floorTime, slotTime, |a1|) + ZipCost(a2, b2, floorTime, slotTime, n)
    decreases n
  {
    if n == 0 {
      ZipCostAgree(a1 + a2, a1, b1 + b2, floorTime, slotTime, |a1|);
      ZipCostBlockers(a1, b1 + b2, b1, floorTime, slotTime, |a1|);
    } else {
      ZipCostConcat(a1, a2, b1, b2, floorTime, slotTime, n - 1);
      assert (a1 + a2)[|a1| + n - 1] == a2[n - 1];
      assert (b1 + b2)[|a1| + n - 1] == b2[n - 1];
    }
  }

  /** Two blocker lists that agree on their first `n` entries give the same
      cost over the first `n` pairs. */
  lemma {:induction false} ZipCostBlockers(a: seq<Coord>, b1: seq<Coord>, b2: seq<Coord>, floorTime: int, slotTime: int, n: int)
    requires 0 <= n <= |a| && n <= |b1| && n <= |b2|
    requires forall i :: 0 <= i < n ==> b1[i] == b2[i]
    ensures ZipCost(a, b1, floorTime, slotTime, n) == ZipCost(a, b2, floorTime, slotTime, n)
    decreases n
  {
    if n > 0 {
      ZipCostBlockers(a, b1, b2, floorTime, slotTime, n - 1);
    }
  }

  /** `total_cost` is additive over lists matched position by position. */
  lemma CostConcat(a1: seq<Coord>, a2: seq<Coord>, b1: seq<Coord>, b2: seq<Coord>, floorTime: int, slotTime: int)
    requires |a1| == |b1|
    ensures Cost(a1 + a2, b1 + b2, floorTime, slotTime)
         == Cost(a1, b1, floorTime, slotTime) + Cost(a2, b2, floorTime, slotTime)
  {
    ZipCostConcat(a1, a2, b1, b2, floorTime, slotTime, Min(|a2|, |b2|));
  }

  /** The pairing is positional, not sorted: sending the blockers at slots 1
      and 3 of floor 1 to slots 1 and 3 of floor 2 costs 420, and listing the
      same two destinations the other way round costs 480. */
  lemma PairingIsPositional()
    ensures Cost([Coord(2, 1), Coord(2, 3)], [Coord(1, 1), Coord(1, 3)], FLOOR_TIME, SLOT_TIME) == 420
    ensures Cost([Coord(2, 3), Coord(2, 1)], [Coord(1, 1), Coord(1, 3)], FLOOR_TIME, SLOT_TIME) == 480
  {
    var b := [Coord(1, 1), Coord(1, 3)];
    var a1 := [Coord(2, 1), Coord(2, 3)];
    var a2 := [Coord(2, 3), Coord(2, 1)];
    assert ZipCost(a1, b, FLOOR_TIME, SLOT_TIME, 1) == 210;
    assert ZipCost(a2, b, FLOOR_TIME, SLOT_TIME, 1) == 240;
  }

  /** The outcome of the comparison. */
  datatype Choice = Normal | Optuna

  /** The selection rule: the search result wins only when strictly cheaper;
      a tie keeps the greedy strategy. */
  function Choose(normalCost: int, optunaCost: int): (r: Choice)
    ensures r == Optuna <==> optunaCost < normalCost
    ensures r == Normal <==> normalCost <= optunaCost
    ensures (if r == Normal then normalCost else optunaCost) == Min(normalCost, optunaCost)
  {
    if normalCost < optunaCost then Normal
    else if optunaCost < normalCost then Optuna
    else Normal
  }

  /** What `compare_strategies(current_floor, blocking, slot_time,
      floor_time)` returns, given the list the search strategy produced: the
      greedy list and the search list are each cut to `len(blocking)` and
      costed against the blockers. */
  function Compared(g: Cells, cur: int, blocking: seq<Coord>, optunaSlots: seq<Coord>, slotTime: int, floorTime: int): Choice
    requires Shaped(g) && 0 <= cur < FLOORS
  {
    var needed := |blocking|;
    Choose(Cost(Take(GreedySlots(g, cur, needed), needed), blocking, floorTime, slotTime),
           Cost(Take(optunaSlots, needed), blocking, floorTime, slotTime))
  }

  /** `compare_strategies`. The search strategy is not modelled: its list is
      the parameter `optunaSlots`. */
  method CompareStrategies(g: Cells, cur: int, blocking: seq<Coord>, optunaSlots: seq<Coord>, slotTime: int, floorTime: int)
    returns (choice: Choice)
    requires Shaped(g) && 0 <= cur < FLOORS
    ensures choice == Compared(g, cur, blocking, optunaSlots, slotTime, floorTime)
    ensures |blocking| == 0 ==> choice == Normal
  {
    var needed := |blocking|;
    var normalSlots := FindEmptySlotsNormal(g, cur, needed);
    var normalCost := TotalCost(Take(normalSlots, needed), blocking, floorTime, slotTime);
    var optunaCost := TotalCost(Take(optunaSlots, needed), blocking, floorTime, slotTime);
    if normalCost < optunaCost {
      choice := Normal;
    } else if optunaCost < normalCost {
      choice := Optuna;
    } else {
      choice := Normal;
    }
  }

  /** The comparison costs only as many pairs as the shorter list has. The
      search list can come out shorter than the blocker list: when the
      search returns fewer free slots than needed, or when its best trial
      repeats an index and the repeat is dropped. Such a list is picked over
      a greedy list that places every blocker whenever each of its pairs is
      no dearer than the greedy pair in the same position (when the times
      are not negative): the greedy cost pays for the extra pairs. */
  lemma ShortSearchWins(g: Cells, cur: int, blocking: seq<Coord>, search: seq<Coord>, slotTime: int, floorTime: int)
    requires Shaped(g) && 0 <= cur < FLOORS
    requires slotTime >= 0 && floorTime >= 0
    requires |search| < |blocking| <= |GreedySlots(g, cur, |blocking|)|
    requires forall i :: 0 <= i < |search| ==>
      PairCost(blocking[i], search[i], floorTime, slotTime)
        <= PairCost(blocking[i], GreedySlots(g, cur, |blocking|)[i], floorTime, slotTime)
    ensures Compared(g, cur, blocking, search, slotTime, floorTime) == Optuna
  {
    var n := |blocking|;
    var greedy := Take(GreedySlots(g, cur, n), n);
    ZipCostPointwise(search, greedy, blocking, floorTime, slotTime, |search|);
    ZipCostGrows(greedy, blocking, floorTime, slotTime, |search|, n);
  }

  /** An assignment list whose every pair is no dearer than the other list's
      pair in the same position costs no more over the first `n` pairs. */
  lemma {:induction false} ZipCostPointwise(a: seq<Coord>, b: seq<Coord>, blocking: seq<Coord>, floorTime: int, slotTime: int, n: int)
    requires 0 <= n <= |a| && n <= |b| && n <= |blocking|
    requires forall i :: 0 <= i < n ==>
      PairCost(blocking[i], a[i], floorTime, slotTime) <= PairCost(blocking[i], b[i], floorTime, slotTime)
    ensures ZipCost(a, blocking, floorTime, slotTime, n) <= ZipCost(b, blocking, floorTime, slotTime, n)
    decreases n
  {
    if n > 0 {
      ZipCostPointwise(a, b, blocking, floorTime, slotTime, n - 1);
    }
  }

  /** Each further pair adds at least the handling time, when the times are
      not negative. */
  lemma {:induction false} ZipCostGrows(a: seq<Coord>, blocking: seq<Coord>, floorTime: int, slotTime: int, m: int, n: int)
    requires 0 <= m <= n <= |a| && n <= |blocking|
    requires floorTime >= 0 && slotTime >= 0
    ensures ZipCost(a, blocking, floorTime, slotTime, n) >= ZipCost(a, blocking, floorTime, slotTime, m) + HANDLING_TIME * (n - m)
    decreases n - m
  {
    if m < n {
      ZipCostGrows(a, blocking, floorTime, slotTime, m, n - 1);
      var from, to := blocking[n - 1], a[n - 1];
      assert 2 * Abs(from.floor - to.floor) * floorTime >= 0;
      assert Abs(from.slot - to.slot) * slotTime >= 0;
    }
  }
}
