# Warehouse tray relocation engine, modelled in Dafny

The warehouse is a grid of 8 floors with 18 slots each. Every slot either holds
a pallet (tray) or is free. A slot is reached from slot 1 of its floor, so
every pallet in a lower slot of the same floor blocks it. To add a pallet to a
slot, or to remove one, the engine first clears that lane. The steps are:

1. Find the blockers on the request floor.
2. Choose a strategy for destination slots on the other floors by comparing
   the estimated cost of the greedy ("normal") list with the search ("optuna")
   list.
3. Ask the operator to confirm.
4. Compute the first destination pool.
5. Consolidate each floor of that pool: its pallets are pushed up, in place,
   towards the highest listed slot.
6. Move every blocker, in ascending order, to the largest slot of a freshly
   computed greedy pool.
7. Write the target cell.
8. Replay every recorded move in reverse, so that all pallets go back where
   they were.

The model follows `TrayManagement.py`.

- `Grid` holds coordinates, the grid as `seq<seq<bool>>`, and single moves.
  It also has plans: a sequence of moves, their application, and their
  reverse replay. It proves the round trip and the conservation of pallets.
- `Sorting` holds Python's lexicographic order on `(floor, slot)` tuples, and
  `sorted` / `sorted(reverse=True)`.
- `Blocking` holds `check_blocking_infloor`.
- `Finder` holds the normal branch of `find_empty_slots_other_floors`. It is a
  stable sort of the other floors by distance, then a nested scan with an
  early return.
- `Counters` holds `count_rightmost` and `count_occupied`, with Python's
  negative indexing.
- `Strategy` holds `total_cost` and `compare_strategies`.
- `Consolidation` says, as values, what the consolidation pass does to each
  floor.
- `Passes` holds the intermediate states of the two lane-clearing passes.
  They are used as loop invariants.
- `Relocation` holds the class `Warehouse`. Its `cells` field is updated in
  place by `AnimateMove`, `MoveInside`, the passes, the replay, and the
  `adding` / `removing` transactions.

Coordinates follow the source's conventions:
- blockers and destination pools are 1-based `Coord(floor, slot)` values;
- grid indices and recorded moves are 0-based.

### Where the code and its own comments differ

The model follows the code in each case.

- **`count_occupied` docstring.** The docstring at `TrayManagement.py:145-147`
  speaks of free slots to the right of a slot. The loop counts the occupied
  slots of the whole floor.
- **Destination comments in `adding` and `removing`.** The comments at lines
  196 and 203 (and 294 and 301) speak of empty slots on the same floor and of
  moving the blockers to the right. The code looks for destinations on the
  other floors (line 199) and carries every blocker to another floor.

### Behaviours of the code the model keeps

- **Positional pairing in `total_cost`.** The cost loop at line 395 zips the
  blocker list with the assignment list in the order given. Neither list is
  sorted first. `Strategy.PairingIsPositional` gives two orders of the same
  destinations with different costs.
- **Strategy for the second pool.** The chosen strategy only decides the
  first pool (line 199). The pool of the cross-floor pass always comes from
  the normal finder on the request floor (line 238).
- **Floor passed to the comparison.** `compare_strategies` is called with
  `current_floor=0`, whatever the request floor is.
- **Cost of shorter lists.** The comparison costs only as many pairs as the
  shorter list has. The search list can come out shorter than the blocker
  list when the best trial repeats an index and the repeat is dropped
  (lines 101-113). `Strategy.ShortSearchWins` shows the effect. Such a list
  wins against a greedy list that places every blocker whenever none of its
  pairs is dearer than the greedy pair in the same position. When there are
  fewer free slots than blockers (lines 75-76), the search returns every
  free cell of floors 1 to 7 in floor order. The comparison always runs at
  floor 0, where the greedy list is that same list. So the two costs are
  equal, and the tie goes to normal.
- **Finder with `needed = 0`.** The greedy finder then never meets its early
  return and lists every free slot of the other floors.
- **Failure in the cross-floor pass.** If the cross-floor pass runs out of
  candidates, it returns at once. The moves made so far are not undone and
  the cell is not written. The model keeps this branch and its effect: the
  grid is the plan applied, and the pallet count and the target cell are
  unchanged.
- **That failure is unreachable after a valid first pool.**
  `Consolidation.NeverRunsOut` proves this. Consolidation keeps the number of
  pallets on every floor. So the recomputed greedy pool is as long as the
  blocker list whenever the first pool was.

## Model

| member | source | states |
|---|---|---|
| Grid.EmptyGrid | TrayManagement.py:19-21 | a fresh warehouse has 8 floors of 18 slots, all free |
| Grid.Set | TrayManagement.py:193-194 | writing a cell changes that cell to the new value and no other cell |
| Grid.Step | TrayManagement.py:160-161 | a move empties the source, gives the destination the source's value, and leaves every other cell alone |
| Grid.StepBack | TrayManagement.py:264-266 | a valid move followed by the move from destination back to origin restores the grid |
| Grid.StepPreservesTotal | TrayManagement.py:160-161 | a valid move (pallet at the source, destination free) keeps the number of pallets in the warehouse |
| Grid.ApplyPlanSnoc | TrayManagement.py:231-234 | recording one more move extends the plan: the grid is the old result with that move applied, and the plan stays valid exactly when the move is valid there |
| Grid.PlanConcat | TrayManagement.py:204-256 | the moves of the two passes recorded into one list act as the first list followed by the second, and the joined plan is valid exactly when both parts are |
| Grid.RoundTrip | TrayManagement.py:263-266 | replaying a valid plan in reverse, destination to origin, returns the grid the plan started from |
| Grid.UndoSet | TrayManagement.py:258-266 | writing a cell that no move touches commutes with the reverse replay |
| Grid.PlanKeeps | TrayManagement.py:204-256 | a cell that is neither end of any recorded move keeps its value through the plan |
| Grid.OriginsCleared | TrayManagement.py:241-256 | after a plan, the origin of every move is free unless a later move brings a pallet into it |
| Grid.PlanAroundSet | TrayManagement.py:204-266 | performing a valid plan, writing an untouched cell, and replaying in reverse equals writing that cell alone |
| Grid.PlanPreservesTotal | TrayManagement.py:204-256 | a valid plan neither creates nor destroys a pallet |
| Blocking.CheckBlockingInFloor | TrayManagement.py:30-36 | the result is exactly the occupied slots before the target on its floor, 1-based, in strictly ascending slot order, and never the target itself |
| Blocking.BlockersMembers | TrayManagement.py:33-35 | a coordinate is a blocker if and only if it lies on the request floor, at a 1-based slot below the target, and that slot holds a pallet |
| Blocking.BlockersAscending | TrayManagement.py:33-35 | blockers share one floor and have strictly increasing slots, so as tuples they are strictly ascending |
| Sorting.SortDescending | TrayManagement.py:206 | `sorted(..., reverse=True)` is a permutation of its input |
| Sorting.SortDescendingSpec | TrayManagement.py:206 | on a list without repeats, the result is strictly descending in tuple order, without repeats, with the same members |
| Sorting.SortAscending | TrayManagement.py:205 | `sorted(...)` is a permutation of its input |
| Sorting.SortAscendingSorted | TrayManagement.py:205 | `sorted` returns a strictly ascending list unchanged, so `temp_blocking` is the blocker list itself |
| Finder.OtherFloors | TrayManagement.py:48-49 | the floor list holds every floor except the current one, in increasing order |
| Finder.SortByDistance | TrayManagement.py:53 | sorting floors by distance is a permutation |
| Finder.SortNearestFirst | TrayManagement.py:53 | the stable sort by distance of an ascending list puts nearer floors first and breaks ties by the lower floor |
| Finder.FloorOrder | TrayManagement.py:48-53 | the floor order holds exactly the floors other than the current one |
| Finder.FloorOrderNearestFirst | TrayManagement.py:48-53 | the floor order lists the 7 other floors once each, nearest first, lower floor first on a tie |
| Finder.FindEmptySlotsNormal | TrayManagement.py:47-65 | the normal strategy without placeholder returns the greedy list: the free cells in scan order, cut to `needed` when that many exist |
| Finder.ScanFloors | TrayManagement.py:55-65 | the nested loops return the first `needed` free cells met floor by floor and slot by slot, or all of them when fewer exist or `needed < 1` |
| Finder.ScanFloor | TrayManagement.py:56-62 | the inner loop over one floor appends that floor's free cells in slot order; it ends the search exactly when `needed` cells are collected, and then holds the first `needed` cells of the full scan |
| Finder.CutEarly | TrayManagement.py:59-62 | the early return at `len(empty) == needed` yields the first `needed` cells of the full scan |
| Finder.ScanMembers | TrayManagement.py:55-58 | a coordinate is met by the scan if and only if it is a free cell of a floor other than the current one |
| Finder.GreedyOrdered | TrayManagement.py:53-62 | the greedy list is in scan order: nearer floors first, ascending slots within a floor |
| Finder.GreedyPool | TrayManagement.py:55-62 | the greedy list holds distinct free cells, 1-based, all off the current floor |
| Finder.GreedyCount | TrayManagement.py:59-65 | the greedy list has exactly `needed` entries when at least `needed >= 1` free cells exist; otherwise (including `needed = 0`) it has every free cell |
| Finder.PoolWithinFree | TrayManagement.py:199-202 | a valid destination pool is never longer than the number of free cells on the other floors |
| Counters.PyIndex | TrayManagement.py:139-140 | a Python index in `-n .. n-1` selects the element at `i` or `i + n` |
| Counters.CountRightmost | TrayManagement.py:134-143 | the loop counts the free cells read at `s - 1` for `s` from `slot` to 18, with Python's negative index wherever it reads below 0: every slot up to 0 wraps to the end of the row, and every floor up to 0 wraps to a floor from the top (floor 0 reads floor 8) |
| Counters.CountOccupied | TrayManagement.py:144-153 | the loop counts the occupied cells of the floor, which the docstring calls free |
| Counters.RightmostPlusOccupied | TrayManagement.py:134-153 | free cells counted from slot 1 and pallets counted on the floor add up to the 18 slots |
| Counters.RightmostFromZero | TrayManagement.py:138-140 | starting at slot 0 reads index -1 and counts the last slot a second time |
| Counters.RightmostBound | TrayManagement.py:134-143 | the count is at most the `|row| - slot + 1` cells the range visits, and from a slot inside the row it reaches that exactly when every cell from the slot to the end is free |
| Counters.FreeCountFull | TrayManagement.py:138-140 | a row has as many free cells as cells exactly when none is occupied |
| Counters.RightmostMonotone | TrayManagement.py:134-143 | starting further right never counts more free slots |
| Strategy.Take | TrayManagement.py:402-403 | `xs[:n]` has `min(len(xs), n)` entries, the first ones of `xs` |
| Strategy.TotalCost | TrayManagement.py:393-400 | the loop sums `2*floor_diff*floor_time + slot_diff*slot_time + 10` over the pairs of `zip(blocking, assignments)` |
| Strategy.CostLower | TrayManagement.py:393-400 | with non-negative times, the total is at least 10 per zipped pair |
| Strategy.CostConcat | TrayManagement.py:393-400 | the total over lists of matching length joined end to end is the sum of the two totals |
| Strategy.TakeNeededCost | TrayManagement.py:402-403 | cutting the assignments to `len(blocking)` does not change the cost, since `zip` stops there |
| Strategy.PairingIsPositional | TrayManagement.py:395 | pairs are taken by position: the same two slots in the other order cost 480 instead of 420 |
| Strategy.Choose | TrayManagement.py:411-420 | optuna is chosen if and only if its cost is strictly smaller; otherwise normal, so a tie goes to normal; the chosen cost is the minimum |
| Strategy.CompareStrategies | TrayManagement.py:369-420 | the choice compares the costs of the normal list and the search list, both cut to `len(blocking)`; with no blockers it is normal |
| Strategy.ShortSearchWins | TrayManagement.py:402-420 | a search list shorter than the blocker list (a repeated index dropped at lines 101-113) wins against a normal list that places every blocker when none of its pairs costs more than the normal pair in the same position |
| Strategy.ZipCostPointwise | TrayManagement.py:393-400 | a list whose every pair is no dearer than the other list's pair in the same position costs no more in total |
| Strategy.ZipCostGrows | TrayManagement.py:393-400 | each further pair adds at least the handling time of 10 to the total |
| Consolidation.SlotsOnMembers | TrayManagement.py:215-217 | the candidate list of a floor holds exactly the positive slots the pool lists on that floor |
| Consolidation.MaxOf | TrayManagement.py:225-226 | `max` of a non-empty list is a member and at least every member |
| Consolidation.FloorTop | TrayManagement.py:224-226 | the highest slot listed for a floor is a listed slot and bounds every listed slot of that floor; 0 when there is none |
| Consolidation.CandidatesTop | TrayManagement.py:215-226 | a floor's candidate list is empty exactly when it has no listed slot, and its `max` is the highest listed slot |
| Consolidation.FloorTopSame | TrayManagement.py:206-226 | sorting the pool does not change the highest listed slot of any floor |
| Consolidation.PackShape | TrayManagement.py:224-235 | after the floor pass, slots up to `top` are free cells followed by exactly the pallets that were there, and the slots above `top` are untouched |
| Consolidation.PackOccupied | TrayManagement.py:224-235 | the floor pass keeps the number of pallets on the floor |
| Consolidation.ConsolidatedFloors | TrayManagement.py:224-235 | the consolidation pass keeps the pallet count of every floor and leaves floors with no listed slot unchanged |
| Consolidation.NeverRunsOut | TrayManagement.py:238-248 | after consolidating over a valid pool of at least `needed` slots, the recomputed greedy pool has exactly `needed` entries, so the failure branch cannot fire |
| Passes.FloorScanMove | TrayManagement.py:227-235 | a pallet met by the downward scan lies strictly below the target, the target is free, and the move keeps the scan's state |
| Passes.FloorScanDone | TrayManagement.py:227-235 | when the scan reaches slot 0 the floor is the packed row and nothing else has changed |
| Passes.PoolPassTop | TrayManagement.py:224-227 | a floor with a listed slot is not the request floor, and its highest listed slot is still free when the pass reaches it |
| Passes.PoolPassDone | TrayManagement.py:224-235 | after all floors the grid is the consolidated grid |
| Passes.BlockerMoves | TrayManagement.py:241-256 | the cross-floor pass makes `min(len(blocking), len(candidates))` moves |
| Passes.FirstIndex | TrayManagement.py:256 | the index `list.remove(x)` looks for: `x` sits there and nowhere before it |
| Passes.RemoveFirst | TrayManagement.py:256 | `list.remove(x)`, called with an `x` in the list: the result is the list with the first occurrence of `x` dropped and the other entries in their order |
| Passes.RelocatingMove | TrayManagement.py:241-256 | the next blocker and the first remaining candidate are in the grid, the move is valid, and removing that candidate leaves the rest of the list |
| Passes.RelocatingDone | TrayManagement.py:241-256 | when the blockers or the candidates are used up, blocker `k` has gone to candidate `k` on another floor, for each move made |
| Relocation.BuildCandidates | TrayManagement.py:208-218 | entry `f - 1` lists, in pool order, the positive slots the sorted pool has on floor `f`, for all 8 floors |
| Relocation.Warehouse.constructor | TrayManagement.py:15-23 | the warehouse holds the loaded or freshly created grid |
| Relocation.Warehouse.AnimateMove | TrayManagement.py:154-161 | the new grid is the old one with the move applied |
| Relocation.Warehouse.MoveInside | TrayManagement.py:123-133 | it moves if and only if the source holds a pallet and the target is free; otherwise the grid is unchanged |
| Relocation.Warehouse.ConsolidateFloor | TrayManagement.py:224-235 | the floor becomes its packed row; the recorded moves are a valid plan from the old grid to the new one, all on that floor and upward below `top` |
| Relocation.Warehouse.MoveToTarget | TrayManagement.py:228-235 | a pallet met by the scan is moved by `moveinside` to the current target, the move succeeds, and the scan's state advances with the target one slot lower |
| Relocation.Warehouse.PackListedFloor | TrayManagement.py:224-235 | one turn of the floor loop: a floor with a listed slot is packed and the pass's state moves on to the next floor, with its moves added to the plan |
| Relocation.Warehouse.PackFloors | TrayManagement.py:224-235 | the floors are packed in ascending order; the result is the consolidated grid, reached by a valid plan that never touches the request floor |
| Relocation.Warehouse.Consolidate | TrayManagement.py:205-235 | the grid becomes the consolidated grid of the pool by a valid plan off the request floor, and the request floor is unchanged |
| Relocation.Warehouse.RelocateBlockers | TrayManagement.py:238-256 | the pass runs out if and only if the sorted greedy pool is shorter than the blocker list; the moves pair blocker `k` with candidate `k`, form a valid plan, and leave the request floor |
| Relocation.Warehouse.Restore | TrayManagement.py:263-266 | the new grid is the reverse replay of the moves over the old grid |
| Relocation.Warehouse.MoveBlockersAway | TrayManagement.py:203-256 | the two passes run out if and only if the greedy pool after consolidation is shorter than the blocker list; the moves are the consolidation moves, which stay off the request floor and leave the consolidated grid, followed by blocker `k` to entry `k` of that greedy pool sorted descending; together they are a valid plan from the old grid to the new one that never touches the target, and the new grid is the blocker moves applied to the consolidated grid; when they do not run out, every slot before the target is free |
| Relocation.Warehouse.ClearLane | TrayManagement.py:203-266 | it runs out if and only if the greedy pool after consolidation is too short; the moves are the consolidation moves followed by the blocker moves, as for the two passes, a valid plan that never touches the target; without a run-out the plan leaves every slot before the target free, and after the write and the replay the grid is the old grid with only the target cell written; after a run-out the grid is the plan applied, that is, the blocker moves applied to the consolidated grid |
| Relocation.Warehouse.Transaction | TrayManagement.py:181-270 | the choice is the comparison at floor 0; each status holds exactly when its condition does; a placed or completed transaction only writes the target; a cancelled one or one without enough slots changes nothing; a failed one leaves the grid reached by the blocker moves from the consolidated grid, which keeps the pallet count and the target cell |
| Relocation.Warehouse.Adding | TrayManagement.py:174-270 | the transaction with the target written occupied: the choice is the comparison at floor 0; placed, cancelled, not enough slots and no slot for a blocker each hold exactly when their condition does; placed or completed occupies only the target; cancelled or not enough slots changes nothing; a failure leaves the blocker moves applied to the consolidated grid, with the pallet count and the target cell kept |
| Relocation.Warehouse.Removing | TrayManagement.py:271-368 | the same statuses under the same conditions, with the target written free |
| Relocation.FirstPool | TrayManagement.py:185-199 | the first pool, greedy or searched, is a valid pool of distinct free cells off the request floor |
| Relocation.PoolOffFloor | TrayManagement.py:215-226 | a valid pool lists no slot on the request floor, so the consolidation pass never touches it |
| Relocation.BlockersAreOk | TrayManagement.py:30-36 | the blocker list is well formed, strictly ascending, and lies before the target slot |
| Relocation.LaneCleared | TrayManagement.py:241-256 | once every blocker has gone to another floor, no slot before the target holds a pallet |
| Relocation.LanePlan | TrayManagement.py:204-256 | the moves of both passes together form a valid plan that never touches the target cell |
| Relocation.SetBack | TrayManagement.py:174-368 | writing a cell and then writing back its old value restores the grid; so when the target was free and `adding` and then `removing` at it both end placed or completed, the grid is back where it started |
| Relocation.AddThenRemove | TrayManagement.py:174-368 | when `adding` and then `removing` at one target both end placed or completed, the grid is back where it started exactly when the target was free beforehand |

## Left out

- The Tk interface (buttons, colours, `update_grid`, the pause in `animate_move`) is not modelled. Only the logical change at lines 160-161 is.
- Loading and saving the JSON state file (lines 14-28) is not modelled. The constructor takes the grid as a parameter.
- The "optuna" strategy of `find_empty_slots_other_floors` (lines 68-121) is not modelled, because it is a randomised black-box search. It enters as two parameters: `optunaCompared` is the list the comparison sees, and `optunaPool` is the list for the first pool. The model requires `optunaPool` to hold distinct free cells on other floors. That is what a search over the free-cell candidates returns. `optunaCompared` is left unconstrained. So when there are fewer free slots than blockers, the model may choose optuna, which the program never does: there both lists are every free cell in the same order. The model therefore allows more behaviours than the program has, never fewer.
- The placeholder entries `(floor, 0)` of the finder are not modelled. Every call in the engine passes `placeholder=False`. The consolidation pass's `slot > 0` filter is still modelled.
- The operator prompt `input(...)` becomes the boolean `confirm`.
- Printed output and returned message texts are not modelled. The outcome is the `Status` value. This includes the success message of `removing` at line 368, which says "Added pallet".
- Costs are whole numbers rather than floats. Every constant involved is integral (15, 100, 10), and so are the coordinates.
- The unused import at line 7 is not modelled.
- Relocation.Warehouse.MoveInside: requires its indices to be in range. Python would also accept negative indices, but the engine only passes in-range ones.
- Relocation.Warehouse.RelocateBlockers: the per-turn copy of the candidate list (lines 243-245) is modelled as an assignment, since it copies the list unchanged.
- The class `Warehouse` models the module-level list `warehouse` that all functions share. Aliasing between the rows of that list is not modelled. Rows are values.
