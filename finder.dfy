/** The greedy ("normal") free-slot finder: free slots on the other floors,
    nearest floor first, lowest slot first within a floor. */
module Finder {
  import opened Grid
  import opened Sorting
  import Counters

  function Distance(f: int, cur: int): nat {
    if f < cur then cur - f else f - cur
  }

  /** Floor `a` comes before floor `b`: strictly nearer to `cur`, or as near
      and lower. */
  predicate NearerFirst(a: int, b: int, cur: int) {
    Distance(a, cur) < Distance(b, cur) || (Distance(a, cur) == Distance(b, cur) && a < b)
  }

  predicate NearestFirst(s: seq<int>, cur: int) {
    forall i, j :: 0 <= i < j < |s| ==> NearerFirst(s[i], s[j], cur)
  }

  /** `list(range(floors))` with `current_floor` removed. */
  function OtherFloors(cur: int): (r: seq<int>)
    requires 0 <= cur < FLOORS
    ensures forall f :: f in r <==> 0 <= f < FLOORS && f != cur
    ensures forall i, j :: 0 <= i < j < |r| ==> r[i] < r[j]
  {
    var r := seq(cur, i => i) + seq(FLOORS - 1 - cur, i => cur + 1 + i);
    assert forall k :: 0 <= k < |r| ==> r[k] == if k < cur then k else k + 1;
    forall f
      ensures f in r <==> 0 <= f < FLOORS && f != cur
    {
      if 0 <= f < cur {
        assert r[f] == f;
      } else if cur < f < FLOORS {
        assert r[f - 1] == f;
      }
      if f in r {
        var k :| 0 <= k < |r| && r[k] == f;
      }
    }
    r
  }

  /** Places `x` in front of the first element of `s` whose distance is not
      smaller, so elements of equal distance keep their relative order. */
  function InsertByDistance(x: int, s: seq<int>, cur: int): (r: seq<int>)
    ensures multiset(r) == multiset(s) + multiset{x}
  {
    if |s| == 0 then [x]
    else if Distance(x, cur) <= Distance(s[0], cur) then [x] + s
    else
      assert s == [s[0]] + s[1..];
      [s[0]] + InsertByDistance(x, s[1..], cur)
  }

  /** Python's stable `list.sort(key=lambda x: abs(x - current_floor))`. */
  function SortByDistance(s: seq<int>, cur: int): (r: seq<int>)
    ensures multiset(r) == multiset(s)
  {
    if |s| == 0 then []
    else
      assert s == [s[0]] + s[1..];
      InsertByDistance(s[0], SortByDistance(s[1..], cur), cur)
  }

  /** `floor_indices` after the sort: every floor but `cur`, each once. */
  function FloorOrder(cur: int): (r: seq<int>)
    requires 0 <= cur < FLOORS
    ensures forall f :: f in r <==> 0 <= f < FLOORS && f != cur
    ensures FloorsInRange(r)
  {
    var r := SortByDistance(OtherFloors(cur), cur);
    SameMembers(r, OtherFloors(cur));
    assert forall k :: 0 <= k < |r| ==> r[k] in r;
    r
  }

  /** A floor nearer than every floor of a nearest-first list can go in
      front of it. */
  lemma NearestFirstCons(a: int, t: seq<int>, cur: int)
    requires NearestFirst(t, cur)
    requires forall j :: 0 <= j < |t| ==> NearerFirst(a, t[j], cur)
    ensures NearestFirst([a] + t, cur)
  {
    var r := [a] + t;
    forall i, j | 0 <= i < j < |r|
      ensures NearerFirst(r[i], r[j], cur)
    {
      assert r[j] == t[j - 1];
      if i > 0 {
        assert r[i] == t[i - 1];
      }
    }
  }

  lemma {:induction false} InsertNearestFirst(x: int, s: seq<int>, cur: int)
    requires NearestFirst(s, cur)
    requires forall y :: y in s ==> x < y
    ensures NearestFirst(InsertByDistance(x, s, cur), cur)
    decreases |s|
  {
    if |s| > 0 && Distance(x, cur) > Distance(s[0], cur) {
      var t := InsertByDistance(x, s[1..], cur);
      assert forall y :: y in s[1..] ==> y in s;
      assert NearestFirst(s[1..], cur) by {
        forall i, j | 0 <= i < j < |s[1..]|
          ensures NearerFirst(s[1..][i], s[1..][j], cur)
        {
          assert s[1..][i] == s[i + 1] && s[1..][j] == s[j + 1];
        }
      }
      InsertNearestFirst(x, s[1..], cur);
      forall j | 0 <= j < |t|
        ensures NearerFirst(s[0], t[j], cur)
      {
        assert t[j] in multiset(t);
        assert t[j] in s[1..] + [x];
        if t[j] in s[1..] {
          var k :| 0 <= k < |s[1..]| && s[1..][k] == t[j];
          assert s[k + 1] == t[j];
        }
      }
      NearestFirstCons(s[0], t, cur);
    } else if |s| > 0 {
      forall j | 0 <= j < |s|
        ensures NearerFirst(x, s[j], cur)
      {
        assert j > 0 ==> NearerFirst(s[0], s[j], cur);
        assert s[j] in s;
      }
      NearestFirstCons(x, s, cur);
    }
  }

  /** Sorting an ascending list stably by distance puts it in nearest-first
      order, ties broken by the lower floor. */
  lemma {:induction false} SortNearestFirst(s: seq<int>, cur: int)
    requires forall i, j :: 0 <= i < j < |s| ==> s[i] < s[j]
    ensures NearestFirst(SortByDistance(s, cur), cur)
    decreases |s|
  {
    if |s| > 0 {
      var t := SortByDistance(s[1..], cur);
      SortNearestFirst(s[1..], cur);
      forall y | y in t
        ensures s[0] < y
      {
        assert y in multiset(t);
        assert y in s[1..];
      }
      InsertNearestFirst(s[0], t, cur);
    }
  }

  /** The floor order visits every other floor once, nearest first, and the
      lower of two equally near floors first. */
  lemma FloorOrderNearestFirst(cur: int)
    requires 0 <= cur < FLOORS
    ensures NearestFirst(FloorOrder(cur), cur)
    ensures Distinct(FloorOrder(cur)) && |FloorOrder(cur)| == FLOORS - 1
  {
    SortNearestFirst(OtherFloors(cur), cur);
    var r := FloorOrder(cur);
    assert |multiset(r)| == |multiset(OtherFloors(cur))|;
  }

  // ---- The scan ----

  /** The free cells of `row`, a prefix of the row of floor `f`, 1-based, in
      the order the scan meets them. */
  function FreeCells(row: seq<bool>, f: int): seq<Coord>
    decreases |row|
  {
    if |row| == 0 then []
    else FreeCells(row[..|row| - 1], f) + (if !row[|row| - 1] then [Coord(f + 1, |row|)] else [])
  }

  /** The free slots of floor `f`, 1-based, lowest first. */
  function FloorFree(g: Cells, f: int): seq<Coord>
    requires Shaped(g) && 0 <= f < FLOORS
  {
    FreeCells(g[f], f)
  }

  predicate FloorsInRange(fs: seq<int>) {
    forall k :: 0 <= k < |fs| ==> 0 <= fs[k] < FLOORS
  }

  /** The free slots of the floors `fs[0]`, ..., `fs[n - 1]`, floor after
      floor. */
  function AllFree(g: Cells, fs: seq<int>, n: int): seq<Coord>
    requires Shaped(g) && FloorsInRange(fs) && 0 <= n <= |fs|
    decreases n
  {
    if n == 0 then []
    else AllFree(g, fs, n - 1) + FloorFree(g, fs[n - 1])
  }

  /** Everything the scan over the floor order of `cur` meets. */
  function Scan(g: Cells, cur: int): seq<Coord>
    requires Shaped(g) && 0 <= cur < FLOORS
  {
    AllFree(g, FloorOrder(cur), |FloorOrder(cur)|)
  }

  /** The early return: the first `needed` cells when `needed >= 1` and
      there are that many, otherwise all of them. */
  function Cut(all: seq<Coord>, needed: int): seq<Coord> {
    if 1 <= needed <= |all| then all[..needed] else all
  }

  /** What `find_empty_slots_other_floors(current_floor, needed, False,
      strategy="normal")` returns: the free slots of the other floors in scan
      order, cut at `needed` entries when `needed` is at least 1 and that many
      exist. With `needed` 0 the cut never happens. */
  function GreedySlots(g: Cells, cur: int, needed: int): seq<Coord>
    requires Shaped(g) && 0 <= cur < FLOORS
  {
    Cut(Scan(g, cur), needed)
  }

  /** A destination pool: distinct free cells, 1-based, on floors other than
      `cur`. */
  predicate PoolOk(g: Cells, cur: int, pool: seq<Coord>)
    requires Shaped(g)
  {
    Distinct(pool) &&
    forall k :: 0 <= k < |pool| ==>
      InGrid(ToIndex(pool[k])) && pool[k].floor != cur + 1 && !Get(g, ToIndex(pool[k]))
  }

  // ---- Facts about one floor ----

  /** Scanning one more slot. */
  lemma FreeCellsNext(row: seq<bool>, f: int, s: int)
    requires 0 <= s < |row|
    ensures FreeCells(row[..s + 1], f) == FreeCells(row[..s], f) + (if !row[s] then [Coord(f + 1, s + 1)] else [])
  {
    assert row[..s + 1][..s] == row[..s];
  }

  lemma {:induction false} FreeCellsMembers(row: seq<bool>, f: int)
    ensures forall c {:trigger c in FreeCells(row, f)} :: c in FreeCells(row, f) <==>
              c.floor == f + 1 && 1 <= c.slot <= |row| && !row[c.slot - 1]
    decreases |row|
  {
    if |row| > 0 {
      var p := row[..|row| - 1];
      FreeCellsMembers(p, f);
      forall c {:trigger c in FreeCells(row, f)}
        ensures c in FreeCells(row, f) <==> c.floor == f + 1 && 1 <= c.slot <= |row| && !row[c.slot - 1]
      {
        if 1 <= c.slot < |row| {
          assert p[c.slot - 1] == row[c.slot - 1];
        }
      }
    }
  }

  predicate SlotsAscending(s: seq<Coord>) {
    forall i, j :: 0 <= i < j < |s| ==> s[i].slot < s[j].slot
  }

  lemma {:induction false} FreeCellsAscending(row: seq<bool>, f: int)
    ensures SlotsAscending(FreeCells(row, f))
    decreases |row|
  {
    if |row| > 0 {
      var q := row[..|row| - 1];
      FreeCellsAscending(q, f);
      FreeCellsMembers(q, f);
      var p := FreeCells(q, f);
      var r := FreeCells(row, f);
      forall i, j | 0 <= i < j < |r|
        ensures r[i].slot < r[j].slot
      {
        assert r[i] == p[i] && p[i] in p;
        if j >= |p| {
          assert r[j] == Coord(f + 1, |row|);
        } else {
          assert r[j] == p[j];
        }
      }
    }
  }

  lemma PrefixAppend<T>(a: seq<T>, b: seq<T>, c: seq<T>)
    requires a <= b
    ensures a <= b + c
  {
    assert (b + c)[..|b|] == b;
  }

  lemma {:induction false} FreeCellsPrefix(row: seq<bool>, f: int, m: int)
    requires 0 <= m <= |row|
    ensures FreeCells(row[..m], f) <= FreeCells(row, f)
    decreases |row|
  {
    if m < |row| {
      var q := row[..|row| - 1];
      assert q[..m] == row[..m];
      FreeCellsPrefix(q, f, m);
      PrefixAppend(FreeCells(row[..m], f), FreeCells(q, f), if !row[|row| - 1] then [Coord(f + 1, |row|)] else []);
    } else {
      assert row[..m] == row;
    }
  }

  /** A row's free cells and its pallets add up to its length; so the list
      of free cells is as long as the count `count_rightmost` makes from
      slot 1. */
  lemma {:induction false} FreeCellsCount(row: seq<bool>, f: int)
    ensures |FreeCells(row, f)| + Occupied(row) == |row|
    ensures |FreeCells(row, f)| == Counters.FreeCount(row)
    decreases |row|
  {
    Counters.FreeOccupied(row);
    if |row| > 0 {
      var q := row[..|row| - 1];
      FreeCellsCount(q, f);
      assert row == q + [row[|row| - 1]];
      OccupiedConcat(q, [row[|row| - 1]]);
    }
  }

  // ---- Facts about the scan over several floors ----

  /** `x` is one of `fs[0]`, ..., `fs[n - 1]`. */
  predicate AmongFirst(fs: seq<int>, n: int, x: int) {
    exists k :: 0 <= k < n && k < |fs| && fs[k] == x
  }

  lemma {:induction false} AllFreeMembers(g: Cells, fs: seq<int>, n: int)
    requires Shaped(g) && FloorsInRange(fs) && 0 <= n <= |fs|
    ensures forall c {:trigger c in AllFree(g, fs, n)} :: c in AllFree(g, fs, n) <==>
              AmongFirst(fs, n, c.floor - 1) && 1 <= c.slot <= SLOTS && !g[c.floor - 1][c.slot - 1]
    decreases n
  {
    if n > 0 {
      AllFreeMembers(g, fs, n - 1);
      FreeCellsMembers(g[fs[n - 1]], fs[n - 1]);
      forall c {:trigger c in AllFree(g, fs, n)}
        ensures c in AllFree(g, fs, n) <==>
          AmongFirst(fs, n, c.floor - 1) && 1 <= c.slot <= SLOTS && !g[c.floor - 1][c.slot - 1]
      {
        assert c in AllFree(g, fs, n) <==> c in AllFree(g, fs, n - 1) || c in FloorFree(g, fs[n - 1]);
        AmongFirstNext(fs, n, c.floor - 1);
      }
    }
  }

  /** One of the first `n` floors is one of the first `n - 1` or the last. */
  lemma AmongFirstNext(fs: seq<int>, n: int, x: int)
    requires 0 < n <= |fs|
    ensures AmongFirst(fs, n, x) <==> AmongFirst(fs, n - 1, x) || x == fs[n - 1]
  {
    if AmongFirst(fs, n, x) {
      var k :| 0 <= k < n && k < |fs| && fs[k] == x;
      assert k < n - 1 ==> AmongFirst(fs, n - 1, x);
    }
    if AmongFirst(fs, n - 1, x) {
      var k :| 0 <= k < n - 1 && k < |fs| && fs[k] == x;
      assert AmongFirst(fs, n, x);
    }
    if x == fs[n - 1] {
      assert AmongFirst(fs, n, x);
    }
  }

  /** The cells the scan finds: the free cells of the other floors. */
  lemma ScanMembers(g: Cells, cur: int)
    requires Shaped(g) && 0 <= cur < FLOORS
    ensures forall c {:trigger c in Scan(g, cur)} :: c in Scan(g, cur) <==>
      InGrid(ToIndex(c)) && c.floor != cur + 1 && !Get(g, ToIndex(c))
  {
    var fs := FloorOrder(cur);
    AllFreeMembers(g, fs, |fs|);
    forall c {:trigger c in Scan(g, cur)}
      ensures c in Scan(g, cur) <==> InGrid(ToIndex(c)) && c.floor != cur + 1 && !Get(g, ToIndex(c))
    {
      if AmongFirst(fs, |fs|, c.floor - 1) {
        var k :| 0 <= k < |fs| && fs[k] == c.floor - 1;
        assert fs[k] in fs;
      }
      if c.floor - 1 in fs {
        var k :| 0 <= k < |fs| && fs[k] == c.floor - 1;
        assert AmongFirst(fs, |fs|, c.floor - 1);
      }
    }
  }

  lemma {:induction false} AllFreeFloorPrefix(g: Cells, fs: seq<int>, i: int, n: int)
    requires Shaped(g) && FloorsInRange(fs) && 0 <= i <= n <= |fs|
    ensures AllFree(g, fs, i) <= AllFree(g, fs, n)
    decreases n
  {
    if i < n {
      AllFreeFloorPrefix(g, fs, i, n - 1);
    }
  }

  lemma PrefixConcat<T>(a: seq<T>, b: seq<T>, c: seq<T>, e: seq<T>, d: seq<T>)
    requires b <= c && e == a + c && e <= d
    ensures a + b <= d
  {
    assert a + b == (a + c)[..|a| + |b|];
  }

  /** What the scan has collected part-way through floor `fs[i]` is a prefix
      of the whole scan. */
  lemma AllFreePrefix(g: Cells, fs: seq<int>, i: int, s: int)
    requires Shaped(g) && FloorsInRange(fs) && 0 <= i < |fs| && 0 <= s <= SLOTS
    ensures AllFree(g, fs, i) + FreeCells(g[fs[i]][..s], fs[i]) <= AllFree(g, fs, |fs|)
  {
    FreeCellsPrefix(g[fs[i]], fs[i], s);
    AllFreeFloorPrefix(g, fs, i + 1, |fs|);
    PrefixConcat(AllFree(g, fs, i), FreeCells(g[fs[i]][..s], fs[i]), FloorFree(g, fs[i]),
      AllFree(g, fs, i + 1), AllFree(g, fs, |fs|));
  }

  /** Once the scan has collected `needed` cells part-way through floor
      `fs[i]`, they are what the cut keeps. */
  lemma CutEarly(g: Cells, fs: seq<int>, i: int, s: int, empty: seq<Coord>)
    requires Shaped(g) && FloorsInRange(fs) && 0 <= i < |fs| && 0 <= s <= SLOTS
    requires empty == AllFree(g, fs, i) + FreeCells(g[fs[i]][..s], fs[i]) && |empty| >= 1
    ensures Cut(AllFree(g, fs, |fs|), |empty|) == empty
  {
    AllFreePrefix(g, fs, i, s);
    assert AllFree(g, fs, |fs|)[..|empty|] == empty;
  }

  /** Scan order over the cells: by floor in the order `fs`, then by slot. */
  predicate ScanBefore(a: Coord, b: Coord, cur: int) {
    NearerFirst(a.floor - 1, b.floor - 1, cur) || (a.floor == b.floor && a.slot < b.slot)
  }

  predicate ScanOrdered(s: seq<Coord>, cur: int) {
    forall i, j :: 0 <= i < j < |s| ==> ScanBefore(s[i], s[j], cur)
  }

  lemma ScanConcat(a: seq<Coord>, b: seq<Coord>, cur: int)
    requires ScanOrdered(a, cur) && ScanOrdered(b, cur)
    requires forall x, y :: x in a && y in b ==> ScanBefore(x, y, cur)
    ensures ScanOrdered(a + b, cur)
  {
    var r := a + b;
    forall i, j | 0 <= i < j < |r|
      ensures ScanBefore(r[i], r[j], cur)
    {
      if j < |a| {
        assert r[i] == a[i] && r[j] == a[j];
      } else if i >= |a| {
        assert r[i] == b[i - |a|] && r[j] == b[j - |a|];
      } else {
        assert r[i] == a[i] && a[i] in a;
        assert r[j] == b[j - |a|] && b[j - |a|] in b;
      }
    }
  }

  lemma {:induction false} AllFreeOrdered(g: Cells, fs: seq<int>, n: int, cur: int)
    requires Shaped(g) && FloorsInRange(fs) && 0 <= n <= |fs| && NearestFirst(fs, cur)
    ensures ScanOrdered(AllFree(g, fs, n), cur)
    decreases n
  {
    if n > 0 {
      var last := fs[n - 1];
      AllFreeOrdered(g, fs, n - 1, cur);
      AllFreeMembers(g, fs, n - 1);
      FreeCellsMembers(g[last], last);
      FreeCellsAscending(g[last], last);
      var a := AllFree(g, fs, n - 1);
      var b := FloorFree(g, last);
      assert ScanOrdered(b, cur) by {
        forall i, j | 0 <= i < j < |b|
          ensures ScanBefore(b[i], b[j], cur)
        {
          assert b[i] in b && b[j] in b;
        }
      }
      forall x, y | x in a && y in b
        ensures ScanBefore(x, y, cur)
      {
        var k :| 0 <= k < n - 1 && k < |fs| && fs[k] == x.floor - 1;
        assert NearerFirst(fs[k], fs[n - 1], cur);
      }
      ScanConcat(a, b, cur);
    }
  }

  lemma PrefixOrdered(r: seq<Coord>, all: seq<Coord>, cur: int)
    requires r <= all && ScanOrdered(all, cur)
    ensures ScanOrdered(r, cur)
  {
    forall i, j | 0 <= i < j < |r|
      ensures ScanBefore(r[i], r[j], cur)
    {
      assert r[i] == all[i] && r[j] == all[j];
    }
  }

  lemma PrefixMembers<T>(r: seq<T>, all: seq<T>)
    requires r <= all
    ensures forall x :: x in r ==> x in all
  {
    forall x | x in r
      ensures x in all
    {
      var k :| 0 <= k < |r| && r[k] == x;
      assert all[k] == x;
    }
  }

  lemma CutPrefix(all: seq<Coord>, needed: int)
    ensures Cut(all, needed) <= all
  {
    if 1 <= needed <= |all| {
      assert all[..needed] <= all;
    }
  }

  /** The greedy pool is in scan order: nearest floor first (the lower
      floor on a tie), ascending slot within a floor. */
  lemma GreedyOrdered(g: Cells, cur: int, needed: int)
    requires Shaped(g) && 0 <= cur < FLOORS
    ensures ScanOrdered(GreedySlots(g, cur, needed), cur)
  {
    var fs := FloorOrder(cur);
    FloorOrderNearestFirst(cur);
    AllFreeOrdered(g, fs, |fs|, cur);
    CutPrefix(Scan(g, cur), needed);
    PrefixOrdered(GreedySlots(g, cur, needed), Scan(g, cur), cur);
  }

  /** The greedy pool holds distinct free cells of other floors. */
  lemma GreedyPool(g: Cells, cur: int, needed: int)
    requires Shaped(g) && 0 <= cur < FLOORS
    ensures PoolOk(g, cur, GreedySlots(g, cur, needed))
  {
    var r := GreedySlots(g, cur, needed);
    GreedyOrdered(g, cur, needed);
    ScanMembers(g, cur);
    CutPrefix(Scan(g, cur), needed);
    PrefixMembers(r, Scan(g, cur));
    forall i, j | 0 <= i < j < |r|
      ensures r[i] != r[j]
    {
      assert ScanBefore(r[i], r[j], cur);
    }
    forall k | 0 <= k < |r|
      ensures InGrid(ToIndex(r[k])) && r[k].floor != cur + 1 && !Get(g, ToIndex(r[k]))
    {
      assert r[k] in r;
    }
  }

  /** How many the greedy finder returns: `needed` when at least `needed`
      free cells exist on the other floors and `needed >= 1`; otherwise
      every free cell of the other floors (so, with `needed == 0`, all of them). */
  lemma GreedyCount(g: Cells, cur: int, needed: int)
    requires Shaped(g) && 0 <= cur < FLOORS
    ensures 1 <= needed <= |Scan(g, cur)| ==> |GreedySlots(g, cur, needed)| == needed
    ensures !(1 <= needed <= |Scan(g, cur)|) ==>
      forall c {:trigger c in GreedySlots(g, cur, needed)} :: c in GreedySlots(g, cur, needed) <==>
        InGrid(ToIndex(c)) && c.floor != cur + 1 && !Get(g, ToIndex(c))
  {
    ScanMembers(g, cur);
  }

  // ---- Counting the free cells ----

  lemma ElemsCard<T>(s: seq<T>)
    ensures |(set x | x in s)| <= |s|
    ensures Distinct(s) ==> |(set x | x in s)| == |s|
    decreases |s|
  {
    if |s| > 0 {
      var t := s[1..];
      ElemsCard(t);
      assert (set x | x in s) == {s[0]} + (set x | x in t);
      if Distinct(s) {
        assert s[0] !in t by {
          forall j | 0 <= j < |t|
            ensures t[j] != s[0]
          {
            assert t[j] == s[j + 1];
          }
        }
        assert Distinct(t) by {
          forall i, j | 0 <= i < j < |t|
            ensures t[i] != t[j]
          {
            assert t[i] == s[i + 1] && t[j] == s[j + 1];
          }
        }
      }
    }
  }

  lemma SubsetCard<T>(a: set<T>, b: set<T>)
    requires a <= b
    ensures |a| <= |b|
    decreases |b|
  {
    if a != {} {
      var x :| x in a;
      SubsetCard(a - {x}, b - {x});
    }
  }

  /** A valid pool never holds more cells than the other floors have free. */
  lemma PoolWithinFree(g: Cells, cur: int, pool: seq<Coord>)
    requires Shaped(g) && 0 <= cur < FLOORS && PoolOk(g, cur, pool)
    ensures |pool| <= |Scan(g, cur)|
  {
    var all := Scan(g, cur);
    ScanMembers(g, cur);
    forall c | c in pool
      ensures c in all
    {
      var k :| 0 <= k < |pool| && pool[k] == c;
    }
    ElemsCard(pool);
    ElemsCard(all);
    SubsetCard(set x | x in pool, set x | x in all);
  }

  /** The number of free cells the scan finds on the floors `fs` depends only
      on how many pallets each of those floors holds. */
  lemma {:induction false} AllFreeCount(g: Cells, h: Cells, fs: seq<int>, n: int)
    requires Shaped(g) && Shaped(h) && FloorsInRange(fs) && 0 <= n <= |fs|
    requires forall k :: 0 <= k < n ==> Occupied(g[fs[k]]) == Occupied(h[fs[k]])
    ensures |AllFree(g, fs, n)| == |AllFree(h, fs, n)|
    decreases n
  {
    if n > 0 {
      AllFreeCount(g, h, fs, n - 1);
      FreeCellsCount(g[fs[n - 1]], fs[n - 1]);
      FreeCellsCount(h[fs[n - 1]], fs[n - 1]);
    }
  }

  // ---- The imperative scan ----

  /** `find_empty_slots_other_floors` with the "normal" strategy and no
      placeholder: the floor order, then the scan. */
  method FindEmptySlotsNormal(g: Cells, cur: int, needed: int) returns (empty: seq<Coord>)
    requires Shaped(g) && 0 <= cur < FLOORS
    ensures empty == GreedySlots(g, cur, needed)
  {
    var order := FloorOrder(cur);
    empty := ScanFloors(g, order, needed);
  }

  /** The two nested loops of `find_empty_slots_other_floors` over the floors
      `order` and their slots, with the early return once `needed` cells are
      collected. */
  method ScanFloors(g: Cells, order: seq<int>, needed: int) returns (empty: seq<Coord>)
    requires Shaped(g) && FloorsInRange(order)
    ensures empty == Cut(AllFree(g, order, |order|), needed)
  {
    empty := [];
    var i := 0;
    while i < |order|
      invariant 0 <= i <= |order|
      invariant empty == AllFree(g, order, i)
      invariant needed < 1 || |empty| < needed
    {
      var full;
      empty, full := ScanFloor(g, order, i, needed, empty);
      if full {
        return;
      }
      i := i + 1;
    }
  }

  /** The inner loop over the slots of floor `order[i]`: its free cells are
      appended to `empty` until `needed` cells are collected, which ends the
      whole search (`full`). */
  method ScanFloor(g: Cells, order: seq<int>, i: int, needed: int, empty0: seq<Coord>)
    returns (empty: seq<Coord>, full: bool)
    requires Shaped(g) && FloorsInRange(order) && 0 <= i < |order|
    requires empty0 == AllFree(g, order, i) && (needed < 1 || |empty0| < needed)
    ensures full ==> empty == Cut(AllFree(g, order, |order|), needed)
    ensures !full ==> empty == AllFree(g, order, i + 1) && (needed < 1 || |empty| < needed)
  {
    var f := order[i];
    empty := empty0;
    full := false;
    var s := 0;
    while s < SLOTS
      invariant 0 <= s <= SLOTS
      invariant empty == empty0 + FreeCells(g[f][..s], f)
      invariant needed < 1 || |empty| < needed
    {
      FreeCellsNext(g[f], f, s);
      if !g[f][s] {
        assert empty0 + FreeCells(g[f][..s + 1], f) == empty + [Coord(f + 1, s + 1)];
        empty := empty + [Coord(f + 1, s + 1)];
        if |empty| == needed {
          CutEarly(g, order, i, s + 1, empty);
          full := true;
          return;
        }
      }
      s := s + 1;
    }
    assert g[f][..s] == g[f];
    assert empty == AllFree(g, order, i + 1);
  }
}
