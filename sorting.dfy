/** Python's order on `(floor, slot)` tuples and `sorted(xs, reverse=True)`
    on lists of coordinates, as an insertion sort. */
module Sorting {
  import opened Grid

  /** `a < b` on `(floor, slot)` tuples: lexicographic. */
  predicate Below(a: Coord, b: Coord) {
    a.floor < b.floor || (a.floor == b.floor && a.slot < b.slot)
  }

  predicate StrictlyDescending(s: seq<Coord>) {
    forall i, j :: 0 <= i < j < |s| ==> Below(s[j], s[i])
  }

  predicate StrictlyAscending(s: seq<Coord>) {
    forall i, j :: 0 <= i < j < |s| ==> Below(s[i], s[j])
  }

  /** Inserts `x` into the descending list `s` before the first element not
      above it. */
  function Insert(x: Coord, s: seq<Coord>): (r: seq<Coord>)
    ensures multiset(r) == multiset(s) + multiset{x}
  {
    if |s| == 0 then [x]
    else if !Below(x, s[0]) then [x] + s
    else
      assert s == [s[0]] + s[1..];
      [s[0]] + Insert(x, s[1..])
  }

  /** `sorted(s, reverse=True)`. */
  function SortDescending(s: seq<Coord>): (r: seq<Coord>)
    ensures multiset(r) == multiset(s)
    ensures |r| == |s|
  {
    if |s| == 0 then []
    else
      assert s == [s[0]] + s[1..];
      Insert(s[0], SortDescending(s[1..]))
  }

  /** Two lists that are permutations of each other have the same members. */
  lemma SameMembers<T>(a: seq<T>, b: seq<T>)
    requires multiset(a) == multiset(b)
    ensures forall x :: x in a <==> x in b
  {
    forall x
      ensures x in a <==> x in b
    {
      assert x in a <==> x in multiset(a);
      assert x in b <==> x in multiset(b);
    }
  }

  lemma {:induction false} InsertDescending(x: Coord, s: seq<Coord>)
    requires StrictlyDescending(s) && x !in s
    ensures StrictlyDescending(Insert(x, s))
    decreases |s|
  {
    var r := Insert(x, s);
    if |s| > 0 && Below(x, s[0]) {
      var t := Insert(x, s[1..]);
      InsertDescending(x, s[1..]);
      SameMembers(t, s[1..] + [x]);
      assert r == [s[0]] + t;
      forall j | 0 < j < |r|
        ensures Below(r[j], r[0])
      {
        assert r[j] == t[j - 1];
        assert t[j - 1] in s[1..] + [x];
      }
    }
  }

  /** The result of `sorted(s, reverse=True)` on a list without repeats is
      its elements in strictly descending order. */
  lemma {:induction false} SortDescendingSpec(s: seq<Coord>)
    requires Distinct(s)
    ensures StrictlyDescending(SortDescending(s)) && Distinct(SortDescending(s))
    ensures forall x :: x in SortDescending(s) <==> x in s
    decreases |s|
  {
    SameMembers(SortDescending(s), s);
    if |s| > 0 {
      var t := SortDescending(s[1..]);
      SortDescendingSpec(s[1..]);
      assert s[0] !in s[1..] by {
        forall j | 0 <= j < |s| - 1
          ensures s[1..][j] != s[0]
        {
          assert s[1..][j] == s[j + 1];
        }
      }
      InsertDescending(s[0], t);
    }
  }

  /** Inserts `x` into the ascending list `s` before the first element not
      below it. */
  function InsertAscending(x: Coord, s: seq<Coord>): (r: seq<Coord>)
    ensures multiset(r) == multiset(s) + multiset{x}
  {
    if |s| == 0 then [x]
    else if !Below(s[0], x) then [x] + s
    else
      assert s == [s[0]] + s[1..];
      [s[0]] + InsertAscending(x, s[1..])
  }

  /** `sorted(s)`. */
  function SortAscending(s: seq<Coord>): (r: seq<Coord>)
    ensures multiset(r) == multiset(s)
  {
    if |s| == 0 then []
    else
      assert s == [s[0]] + s[1..];
      InsertAscending(s[0], SortAscending(s[1..]))
  }

  /** `sorted` leaves a strictly ascending list as it is. */
  lemma {:induction false} SortAscendingSorted(s: seq<Coord>)
    requires StrictlyAscending(s)
    ensures SortAscending(s) == s
    decreases |s|
  {
    if |s| > 0 {
      var t := s[1..];
      assert StrictlyAscending(t) by {
        forall i, j | 0 <= i < j < |t|
          ensures Below(t[i], t[j])
        {
          assert t[i] == s[i + 1] && t[j] == s[j + 1];
        }
      }
      SortAscendingSorted(t);
      if |t| > 0 {
        assert Below(s[0], t[0]);
        assert !Below(t[0], s[0]);
      }
      assert s == [s[0]] + t;
    }
  }
}
