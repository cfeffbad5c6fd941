/** Python's range and sorted(set), as the controller uses them. */
module Ranges {
  import opened Wrappers

  /** range(a, b, step) for a positive step. */
  function Range(a: int, b: int, step: int): (r: seq<int>)
    requires step > 0
    ensures forall i :: 0 <= i < |r| ==> a <= r[i] < b
    ensures |r| > 0 <==> a < b
    decreases b - a
  {
    if a >= b then [] else [a] + Range(a + step, b, step)
  }

  ghost predicate Ascending(s: seq<int>) {
    forall i, j :: 0 <= i < j < |s| ==> s[i] < s[j]
  }

  lemma {:induction false} RangeAscends(a: int, b: int, step: int)
    requires step > 0
    ensures Ascending(Range(a, b, step))
    decreases b - a
  {
    if a < b {
      RangeAscends(a + step, b, step);
    }
  }

  /** The elements are what a whole number of steps reaches before the end. */
  lemma {:induction false} RangeMembers(a: int, b: int, step: int, x: int)
    requires step > 0
    ensures x in Range(a, b, step) <==> a <= x < b && (x - a) % step == 0
    decreases b - a
  {
    if a < b {
      RangeMembers(a + step, b, step, x);
      if x >= a {
        StepsBefore(x - a, step);
      }
    }
  }

  lemma StepsBefore(d: int, step: int)
    requires step > 0 && d >= 0
    ensures d >= step ==> (d - step) % step == d % step
    ensures d < step ==> (d % step == 0 <==> d == 0)
  {
    if d >= step {
      assert d == step * (d / step) + d % step;
      assert d - step == step * (d / step - 1) + d % step;
      QuotientIs(d - step, step, d / step - 1, d % step);
    }
  }

  /** The last element is within one step of the end. */
  lemma {:induction false} RangeLast(a: int, b: int, step: int)
    requires step > 0 && a < b
    ensures var r := Range(a, b, step); r[|r| - 1] < b <= r[|r| - 1] + step
    decreases b - a
  {
    if a + step < b {
      RangeLast(a + step, b, step);
    }
  }

  ghost predicate ClearBetween(s: seq<int>, c: int, d: int) {
    forall i :: 0 <= i < |s| ==> s[i] <= c || d <= s[i]
  }

  /** Moving the end past `c`, with no other element in between, adds at most `c` itself. */
  lemma {:induction false} RangeGrows(a: int, c: int, d: int, step: int)
    requires step > 0 && a <= c < d && ClearBetween(Range(a, d, step), c, d)
    ensures Range(a, d, step) == Range(a, c, step) + if c in Range(a, d, step) then [c] else []
    decreases d - a
  {
    hide Range;
    RangeTail(a, d, step);
    RangeStart(a, c, step);
    if a + step < d {
      NotClear(Range(a, d, step), a + step, c, d);
    }
    if a + step <= c {
      ClearTail(a, Range(a + step, d, step), c, d);
      RangeGrows(a + step, c, d, step);
    } else {
      RangeEmpty(a + step, c, step);
      RangeEmpty(a + step, d, step);
    }
  }

  lemma ClearTail(a: int, t: seq<int>, c: int, d: int)
    requires ClearBetween([a] + t, c, d)
    ensures ClearBetween(t, c, d)
  {
    forall i | 0 <= i < |t|
      ensures t[i] <= c || d <= t[i]
    {
      assert ([a] + t)[i + 1] == t[i];
    }
  }

  lemma NotClear(s: seq<int>, x: int, c: int, d: int)
    requires ClearBetween(s, c, d) && x in s
    ensures x <= c || d <= x
  {
  }

  lemma RangeStart(a: int, c: int, step: int)
    requires step > 0
    ensures Range(a, c, step) == if a < c then [a] + Range(a + step, c, step) else []
  {
  }

  lemma RangeEmpty(a: int, c: int, step: int)
    requires step > 0 && c <= a
    ensures Range(a, c, step) == []
  {
  }

  lemma RangeTail(a: int, d: int, step: int)
    requires step > 0 && a < d
    ensures Range(a, d, step) == [a] + Range(a + step, d, step)
    ensures forall x :: x in Range(a, d, step) <==> x == a || x in Range(a + step, d, step)
    ensures a + step < d ==> a + step in Range(a, d, step)
  {
    if a + step < d {
      assert Range(a, d, step)[1] == a + step;
    }
  }

  /** Continuing one step after the last element continues the range. */
  lemma {:induction false} RangeContinues(a: int, c: int, d: int, step: int)
    requires step > 0 && a < c <= d
    ensures var r := Range(a, c, step);
            Range(a, d, step) == r + Range(r[|r| - 1] + step, d, step)
    decreases c - a
  {
    hide Range;
    RangeStart(a, c, step);
    RangeStart(a, d, step);
    var rest := Range(a + step, c, step);
    if a + step < c {
      RangeContinues(a + step, c, d, step);
      var tail := Range(rest[|rest| - 1] + step, d, step);
      assert ([a] + rest)[|rest|] == rest[|rest| - 1];
      assert [a] + (rest + tail) == [a] + rest + tail;
    } else {
      RangeEmpty(a + step, c, step);
    }
  }

  // ----- sorted(set)

  /** The members of `s` from `lo` up to `hi`, in order: sorted(s) when they are all there. */
  function SortedMembers(s: set<int>, lo: int, hi: int): (r: seq<int>)
    ensures forall x :: x in r <==> x in s && lo <= x < hi
    decreases hi - lo
  {
    if lo >= hi then [] else (if lo in s then [lo] else []) + SortedMembers(s, lo + 1, hi)
  }

  lemma {:induction false} SortedMembersAscend(s: set<int>, lo: int, hi: int)
    ensures Ascending(SortedMembers(s, lo, hi))
    decreases hi - lo
  {
    if lo < hi {
      var rest := SortedMembers(s, lo + 1, hi);
      SortedMembersAscend(s, lo + 1, hi);
      assert forall i :: 0 <= i < |rest| ==> rest[i] in rest;
    }
  }

  function Elements(s: seq<int>): (r: set<int>)
    ensures forall x :: x in r <==> x in s
  {
    set x | x in s
  }
}
