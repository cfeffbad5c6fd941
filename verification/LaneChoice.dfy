/** Choosing one lane per recorded waypoint (RouteGeneratorMap in src/runtime/alpasim_runtime/route_generator.py). */
module LaneChoice {
  import opened Wrappers

  type Lane = string

  /** For how many waypoints in a row, from `p` on, lane `x` is offered. */
  function Run(ids: seq<seq<Lane>>, p: nat, x: Lane): (r: nat)
    ensures p <= |ids| ==> p + r <= |ids|
    ensures forall i :: p <= i < p + r && i < |ids| ==> x in ids[i]
    ensures p + r < |ids| ==> x !in ids[p + r]
    decreases |ids| - p
  {
    if p >= |ids| || x !in ids[p] then 0 else 1 + Run(ids, p + 1, x)
  }

  ghost predicate IsLongest(ids: seq<seq<Lane>>, p: nat, x: Lane)
    requires p < |ids|
  {
    x in ids[p] && forall y :: y in ids[p] ==> Run(ids, p, y) <= Run(ids, p, x)
  }

  lemma RunReaches(ids: seq<seq<Lane>>, p: nat, x: Lane, i: nat)
    requires p <= i < |ids| && p + Run(ids, p, x) >= i
    ensures p + Run(ids, p, x) > i <==> x in ids[i]
  {
  }

  lemma {:induction false} RunOfSuffix(ids: seq<seq<Lane>>, d: nat, p: nat, x: Lane)
    requires d + p <= |ids|
    ensures Run(ids[d..], p, x) == Run(ids, d + p, x)
    decreases |ids| - p
  {
    if d + p < |ids| && x in ids[d + p] {
      RunOfSuffix(ids, d, p + 1, x);
    }
  }

  // ----- the longest-lasting candidate

  /** Python's list.remove: drop the first occurrence. */
  function RemoveFirst(s: seq<Lane>, x: Lane): seq<Lane> {
    if |s| == 0 then [] else if s[0] == x then s[1..] else [s[0]] + RemoveFirst(s[1..], x)
  }

  lemma {:induction false} RemoveAfter(a: seq<Lane>, x: Lane, b: seq<Lane>)
    requires x !in a
    ensures RemoveFirst(a + [x] + b, x) == a + b
  {
    var s := a + [x] + b;
    if |a| == 0 {
      assert s[1..] == a + b;
    } else {
      assert s[1..] == a[1..] + [x] + b;
      RemoveAfter(a[1..], x, b);
      assert s[0] == a[0] && a[0] in a;
      assert a + b == [a[0]] + (a[1..] + b);
    }
  }

  /** The lanes of `s`, in order, that last at least `i` waypoints. */
  function Lasting(ids: seq<seq<Lane>>, s: seq<Lane>, i: nat): seq<Lane> {
    if |s| == 0 then []
    else
      var x := s[|s| - 1];
      Lasting(ids, s[..|s| - 1], i) + if Run(ids, 0, x) >= i then [x] else []
  }

  lemma {:induction false} LastingSelects(ids: seq<seq<Lane>>, s: seq<Lane>, i: nat)
    ensures forall x :: x in Lasting(ids, s, i) <==> x in s && Run(ids, 0, x) >= i
  {
    if |s| > 0 {
      LastingSelects(ids, s[..|s| - 1], i);
      assert s == s[..|s| - 1] + [s[|s| - 1]];
    }
  }

  lemma {:induction false} LastingTwice(ids: seq<seq<Lane>>, s: seq<Lane>, i: nat)
    ensures Lasting(ids, Lasting(ids, s, i), i + 1) == Lasting(ids, s, i + 1)
  {
    if |s| > 0 {
      LastingTwice(ids, s[..|s| - 1], i);
      var t, x := Lasting(ids, s[..|s| - 1], i), s[|s| - 1];
      if Run(ids, 0, x) >= i {
        assert (t + [x])[..|t|] == t;
      } else {
        assert t + [] == t;
      }
    }
  }

  lemma {:induction false} AllLasting(ids: seq<seq<Lane>>, s: seq<Lane>)
    requires |ids| > 0 && forall x :: x in s ==> x in ids[0]
    ensures Lasting(ids, s, 1) == s
  {
    hide Run;
    if |s| > 0 {
      var front, x := s[..|s| - 1], s[|s| - 1];
      assert s == front + [x] && x in s && forall y :: y in front ==> y in s;
      AllLasting(ids, front);
      RunReaches(ids, 0, x, 0);
    }
  }

  /** The entry of `s` at `j` lasts `i` waypoints, and no entry in the given direction does. */
  ghost predicate FirstAt(ids: seq<seq<Lane>>, s: seq<Lane>, i: nat, j: int) {
    0 <= j < |s| && Run(ids, 0, s[j]) >= i && forall k :: 0 <= k < j ==> Run(ids, 0, s[k]) < i
  }

  ghost predicate LastAt(ids: seq<seq<Lane>>, s: seq<Lane>, i: nat, j: int) {
    0 <= j < |s| && Run(ids, 0, s[j]) >= i && forall k :: j < k < |s| ==> Run(ids, 0, s[k]) < i
  }

  lemma {:induction false} LastingFirst(ids: seq<seq<Lane>>, s: seq<Lane>, i: nat) returns (j: nat)
    requires |Lasting(ids, s, i)| > 0
    ensures FirstAt(ids, s, i, j) && s[j] == Lasting(ids, s, i)[0]
  {
    hide Run;
    var r := s[..|s| - 1];
    if |Lasting(ids, r, i)| > 0 {
      j := LastingFirst(ids, r, i);
    } else {
      j := |r|;
      NoneLasting(ids, r, i);
    }
  }

  lemma {:induction false} LastingLast(ids: seq<seq<Lane>>, s: seq<Lane>, i: nat) returns (j: nat)
    requires |Lasting(ids, s, i)| > 0
    ensures var f := Lasting(ids, s, i); LastAt(ids, s, i, j) && s[j] == f[|f| - 1]
    ensures |Lasting(ids, s, i)| == 1 ==> FirstAt(ids, s, i, j)
  {
    hide Run;
    var r := s[..|s| - 1];
    if Run(ids, 0, s[|r|]) >= i {
      j := |r|;
      if |Lasting(ids, r, i)| == 0 {
        NoneLasting(ids, r, i);
      }
    } else {
      j := LastingLast(ids, r, i);
    }
  }

  lemma NoneLasting(ids: seq<seq<Lane>>, s: seq<Lane>, i: nat)
    requires |Lasting(ids, s, i)| == 0
    ensures forall k :: 0 <= k < |s| ==> Run(ids, 0, s[k]) < i
  {
    hide Run, Lasting;
    LastingSelects(ids, s, i);
    forall k | 0 <= k < |s|
      ensures Run(ids, 0, s[k]) < i
    {
      assert s[k] in s;
    }
  }

  /**
   * Which of the longest-lasting lanes is returned: the first in the list when they last to the end,
   * otherwise the last in the list.
   */
  ghost predicate PickedInOrder(ids: seq<seq<Lane>>, r: Lane)
    requires |ids| > 0
  {
    var len := Run(ids, 0, r);
    if len == |ids| then exists j :: FirstAt(ids, ids[0], len, j) && ids[0][j] == r
    else exists j :: LastAt(ids, ids[0], len, j) && ids[0][j] == r
  }

  lemma KeepStep(ids: seq<seq<Lane>>, i: nat, copy: seq<Lane>, k: nat)
    requires 0 < i < |ids| && copy == Lasting(ids, ids[0], i) && k < |copy|
    ensures Lasting(ids, copy[..k + 1], i + 1)
            == Lasting(ids, copy[..k], i + 1) + if copy[k] in ids[i] then [copy[k]] else []
  {
    LastingSelects(ids, ids[0], i);
    assert copy[k] in copy;
    RunReaches(ids, 0, copy[k], i);
    assert copy[..k + 1][..k] == copy[..k];
  }

  lemma RemoveStep(ids: seq<seq<Lane>>, i: nat, copy: seq<Lane>, k: nat)
    requires 0 < i < |ids| && copy == Lasting(ids, ids[0], i) && k < |copy| && copy[k] !in ids[i]
    ensures var kept := Lasting(ids, copy[..k], i + 1);
            RemoveFirst(kept + copy[k..], copy[k]) == kept + copy[k + 1..]
  {
    hide Run, Lasting, RemoveFirst;
    var kept := Lasting(ids, copy[..k], i + 1);
    GoneIsNotKept(ids, i, copy, k);
    RemoveAfter(kept, copy[k], copy[k + 1..]);
    assert copy[k..] == [copy[k]] + copy[k + 1..];
    assert kept + ([copy[k]] + copy[k + 1..]) == kept + [copy[k]] + copy[k + 1..];
  }

  lemma GoneIsNotKept(ids: seq<seq<Lane>>, i: nat, copy: seq<Lane>, k: nat)
    requires 0 < i < |ids| && copy == Lasting(ids, ids[0], i) && k < |copy| && copy[k] !in ids[i]
    ensures copy[k] !in Lasting(ids, copy[..k], i + 1)
  {
    hide Run, Lasting;
    LastingSelects(ids, ids[0], i);
    LastingSelects(ids, copy[..k], i + 1);
    assert copy[k] in copy;
    RunReaches(ids, 0, copy[k], i);
  }

  /** `find_consistent_upcoming_lane_id` */
  method FindConsistent(ids: seq<seq<Lane>>) returns (r: Lane)
    requires |ids| > 0 && |ids[0]| > 0
    ensures IsLongest(ids, 0, r)
    ensures PickedInOrder(ids, r)
  {
    hide Run, PickedInOrder, IsLongest, Lasting, RemoveFirst;
    var potential := ids[0];
    AllLasting(ids, ids[0]);
    if |potential| == 1 {
      OnlyCandidate(ids, 1);
      return potential[0];
    }
    for i := 1 to |ids|
      invariant |potential| >= 2
      invariant potential == Lasting(ids, ids[0], i)
    {
      var copy := potential;
      ghost var kept: seq<Lane> := [];
      EmptyLasting(ids, i + 1);
      for k := 0 to |copy|
        invariant |potential| >= 2
        invariant potential == kept + copy[k..]
        invariant kept == Lasting(ids, copy[..k], i + 1)
      {
        KeepStep(ids, i, copy, k);
        if copy[k] !in ids[i] {
          RemoveStep(ids, i, copy, k);
          potential := RemoveFirst(potential, copy[k]);
          if |potential| <= 1 {
            OnlyOneLeft(ids, i, k, kept, potential);
            return potential[0];
          }
        } else {
          kept := kept + [copy[k]];
          assert potential == kept + copy[k + 1..];
        }
      }
      assert copy[..|copy|] == copy && potential == kept;
      LastingTwice(ids, ids[0], i);
    }
    LastToTheEnd(ids);
    r := potential[0];
  }

  lemma OnlyCandidate(ids: seq<seq<Lane>>, i: nat)
    requires |ids| > 0 && |Lasting(ids, ids[0], i)| == 1
    ensures var r := Lasting(ids, ids[0], i)[0]; IsLongest(ids, 0, r) && PickedInOrder(ids, r)
  {
    hide Run;
    var f := Lasting(ids, ids[0], i);
    var r, len := f[0], Run(ids, 0, f[0]);
    LastingSelects(ids, ids[0], i);
    var j := LastingLast(ids, ids[0], i);
    assert r in f;
    assert FirstAt(ids, ids[0], len, j) && LastAt(ids, ids[0], len, j);
    forall y | y in ids[0]
      ensures Run(ids, 0, y) <= len
    {
      if Run(ids, 0, y) >= i {
        assert y in f;
      }
    }
  }

  lemma LastToTheEnd(ids: seq<seq<Lane>>)
    requires |ids| > 0 && |Lasting(ids, ids[0], |ids|)| > 0
    ensures var r := Lasting(ids, ids[0], |ids|)[0]; IsLongest(ids, 0, r) && PickedInOrder(ids, r)
  {
    var f := Lasting(ids, ids[0], |ids|);
    LastingSelects(ids, ids[0], |ids|);
    var j := LastingFirst(ids, ids[0], |ids|);
    assert f[0] in f;
    assert Run(ids, 0, f[0]) == |ids|;
  }

  /** After the removal only one candidate is left: the one that goes on, or the last of a tie. */
  lemma OnlyOneLeft(ids: seq<seq<Lane>>, i: nat, k: nat, kept: seq<Lane>, left: seq<Lane>)
    requires 0 < i < |ids|
    requires var copy := Lasting(ids, ids[0], i);
             && k < |copy| && copy[k] !in ids[i]
             && kept == Lasting(ids, copy[..k], i + 1) && left == kept + copy[k + 1..] && |left| == 1
    ensures IsLongest(ids, 0, left[0]) && PickedInOrder(ids, left[0])
  {
    hide Run, IsLongest, PickedInOrder;
    var copy, r := Lasting(ids, ids[0], i), left[0];
    SplitLasting(ids, i, copy, k);
    hide Lasting;
    if |kept| == 1 {
      EmptyLasting(ids, i + 1);
      assert copy[k + 1..] == [];
      assert Lasting(ids, ids[0], i + 1) == kept;
      OnlyCandidate(ids, i + 1);
    } else {
      assert copy[k + 1..] == [r] && kept == [] && copy[k + 1] == r && |copy| == k + 2;
      OneLasting(ids, i, copy, k + 1);
      assert Lasting(ids, ids[0], i + 1) == if r in ids[i] then [r] else [];
      if r in ids[i] {
        OnlyCandidate(ids, i + 1);
      } else {
        TieForLongest(ids, i, r);
      }
    }
  }

  lemma EmptyLasting(ids: seq<seq<Lane>>, i: nat)
    ensures Lasting(ids, [], i) == []
  {
  }

  lemma OneLasting(ids: seq<seq<Lane>>, i: nat, copy: seq<Lane>, k: nat)
    requires 0 < i < |ids| && copy == Lasting(ids, ids[0], i) && k < |copy|
    ensures Lasting(ids, [copy[k]], i + 1) == if copy[k] in ids[i] then [copy[k]] else []
  {
    hide Run;
    LastingSelects(ids, ids[0], i);
    assert copy[k] in copy;
    RunReaches(ids, 0, copy[k], i);
    assert [copy[k]][..0] == [];
  }

  lemma SplitLasting(ids: seq<seq<Lane>>, i: nat, copy: seq<Lane>, k: nat)
    requires 0 < i < |ids| && copy == Lasting(ids, ids[0], i) && k < |copy| && copy[k] !in ids[i]
    ensures Lasting(ids, ids[0], i + 1) == Lasting(ids, copy[..k], i + 1) + Lasting(ids, copy[k + 1..], i + 1)
  {
    hide Run, Lasting;
    LastingTwice(ids, ids[0], i);
    assert copy == copy[..k + 1] + copy[k + 1..];
    LastingConcat(ids, copy[..k + 1], copy[k + 1..], i + 1);
    KeepStep(ids, i, copy, k);
  }

  lemma TieForLongest(ids: seq<seq<Lane>>, i: nat, r: Lane)
    requires 0 < i < |ids| && |Lasting(ids, ids[0], i)| > 0
    requires var f := Lasting(ids, ids[0], i); r == f[|f| - 1]
    requires Lasting(ids, ids[0], i + 1) == [] && r !in ids[i]
    ensures IsLongest(ids, 0, r) && PickedInOrder(ids, r)
  {
    hide Run;
    var f := Lasting(ids, ids[0], i);
    LastingSelects(ids, ids[0], i);
    LastingSelects(ids, ids[0], i + 1);
    var j := LastingLast(ids, ids[0], i);
    assert r in f && r in ids[0];
    forall y | y in ids[0]
      ensures Run(ids, 0, y) <= i
    {
      assert y !in Lasting(ids, ids[0], i + 1);
    }
    assert Run(ids, 0, r) == i;
  }

  lemma {:induction false} LastingConcat(ids: seq<seq<Lane>>, a: seq<Lane>, b: seq<Lane>, i: nat)
    ensures Lasting(ids, a + b, i) == Lasting(ids, a, i) + Lasting(ids, b, i)
  {
    if |b| == 0 {
      assert a + b == a;
    } else {
      LastingConcat(ids, a, b[..|b| - 1], i);
      assert (a + b)[..|a + b| - 1] == a + b[..|b| - 1];
    }
  }

  // ----- the lane sequence

  /** Lanes offered at `i` that continue the previous lane. */
  function Continuations(ids: seq<seq<Lane>>, next: Lane -> set<Lane>, previous: Lane, i: nat): set<Lane>
    requires i < |ids|
  {
    (set x | x in ids[i]) * next(previous)
  }

  /** How the lane at `i` follows from the one before. */
  ghost predicate Follows(ids: seq<seq<Lane>>, next: Lane -> set<Lane>, previous: Lane, x: Lane, i: nat)
    requires i < |ids|
  {
    if previous in ids[i] then x == previous
    else
      var onward := Continuations(ids, next, previous, i);
      if |onward| == 1 then x in onward else IsLongest(ids, i, x)
  }

  ghost predicate IsSelection(ids: seq<seq<Lane>>, next: Lane -> set<Lane>, best: seq<Lane>) {
    && 0 < |best| <= |ids|
    && IsLongest(ids, 0, best[0])
    && forall i :: 1 <= i < |best| ==> Follows(ids, next, best[i - 1], best[i], i)
  }

  ghost predicate AllOffered(ids: seq<seq<Lane>>) {
    |ids| > 0 && forall i :: 0 <= i < |ids| ==> |ids[i]| > 0
  }

  /** Of several longest-lasting lanes the one is taken that the order of the candidates says. */
  ghost predicate TiesInOrder(ids: seq<seq<Lane>>, next: Lane -> set<Lane>, best: seq<Lane>) {
    && 0 < |best| <= |ids| && PickedInOrder(ids, best[0])
    && forall i :: 1 <= i < |best| ==> TieInOrder(ids, next, best[i - 1], best[i], i)
  }

  ghost predicate TieInOrder(ids: seq<seq<Lane>>, next: Lane -> set<Lane>, previous: Lane, x: Lane, i: nat)
    requires i < |ids|
  {
    previous in ids[i] || |Continuations(ids, next, previous, i)| == 1 || PickedInOrder(ids[i..], x)
  }

  /** `_determine_best_lane_sequence` */
  method DetermineLanes(ids: seq<seq<Lane>>, next: Lane -> set<Lane>) returns (best: seq<Lane>)
    requires AllOffered(ids)
    ensures |best| == |ids| && IsSelection(ids, next, best) && TiesInOrder(ids, next, best)
  {
    hide IsLongest, Run, PickedInOrder;
    var first := FindConsistent(ids);
    best := [first];
    for i := 1 to |ids|
      invariant |best| == i && IsSelection(ids, next, best) && TiesInOrder(ids, next, best)
    {
      var previous, x := best[i - 1], best[i - 1];
      if previous !in ids[i] {
        var onward := Continuations(ids, next, previous, i);
        if |onward| == 1 {
          x :| x in onward;
        } else {
          x := FindConsistent(ids[i..]);
          LongestOfSuffix(ids, i, x);
        }
      }
      best := best + [x];
    }
  }

  lemma LongestOfSuffix(ids: seq<seq<Lane>>, d: nat, x: Lane)
    requires d < |ids| && IsLongest(ids[d..], 0, x)
    ensures IsLongest(ids, d, x)
  {
    hide Run;
    RunOfSuffix(ids, d, 0, x);
    forall y | y in ids[d]
      ensures Run(ids, d, y) <= Run(ids, d, x)
    {
      RunOfSuffix(ids, d, 0, y);
    }
  }

  /** Lane `x` is offered at `i` and continues the previous lane. */
  predicate GoesOn(ids: seq<seq<Lane>>, next: Lane -> set<Lane>, previous: Lane, i: nat, x: Lane)
    requires i < |ids|
  {
    x in ids[i] && x in next(previous)
  }

  lemma OnwardIs(ids: seq<seq<Lane>>, next: Lane -> set<Lane>, previous: Lane, i: nat, x: Lane)
    requires i < |ids|
    ensures x in Continuations(ids, next, previous, i) <==> GoesOn(ids, next, previous, i, x)
  {
  }

  /** A lane that is no longer offered is followed by the one lane that goes on, if there is just one. */
  lemma OnlyOneGoesOn(ids: seq<seq<Lane>>, next: Lane -> set<Lane>, best: seq<Lane>, i: nat, previous: Lane, y: Lane)
    requires IsSelection(ids, next, best) && 1 <= i < |best| && previous == best[i - 1] && previous !in ids[i]
    requires forall x :: GoesOn(ids, next, previous, i, x) <==> x == y
    ensures best[i] == y
  {
    hide Run, IsLongest, Continuations, GoesOn;
    var onward := Continuations(ids, next, previous, i);
    assert Follows(ids, next, best[i - 1], best[i], i);
    forall x
      ensures x in onward <==> x == y
    {
      OnwardIs(ids, next, previous, i, x);
    }
    assert onward == {y};
  }

  /** If none goes on, or two do, it is followed by a lane that is offered longest from there. */
  lemma OtherwiseLongest(ids: seq<seq<Lane>>, next: Lane -> set<Lane>, best: seq<Lane>, i: nat, previous: Lane, y: Lane,
                         z: Lane)
    requires IsSelection(ids, next, best) && 1 <= i < |best| && previous == best[i - 1] && previous !in ids[i]
    requires || (forall x :: !GoesOn(ids, next, previous, i, x))
             || (y != z && GoesOn(ids, next, previous, i, y) && GoesOn(ids, next, previous, i, z))
    ensures best[i] in ids[i] && forall x :: x in ids[i] ==> Run(ids, i, x) <= Run(ids, i, best[i])
  {
    hide Run, Continuations, GoesOn;
    var onward := Continuations(ids, next, previous, i);
    assert Follows(ids, next, best[i - 1], best[i], i);
    OnwardIs(ids, next, previous, i, y);
    OnwardIs(ids, next, previous, i, z);
    if y != z && y in onward && z in onward {
      TwoAtLeast(onward, y, z);
    } else {
      forall x
        ensures x !in onward
      {
        OnwardIs(ids, next, previous, i, x);
      }
      assert onward == {};
    }
  }

  lemma TwoAtLeast(s: set<Lane>, y: Lane, z: Lane)
    requires y in s && z in s && y != z
    ensures |s| >= 2
  {
    assert |s - {y}| == |s| - 1 && z in s - {y};
  }

  /** The order settles a tie: at most one longest-lasting lane is the one picked. */
  lemma PickIsUnique(ids: seq<seq<Lane>>, x: Lane, y: Lane)
    requires |ids| > 0 && IsLongest(ids, 0, x) && PickedInOrder(ids, x) && IsLongest(ids, 0, y) && PickedInOrder(ids, y)
    ensures x == y
  {
    hide Run;
    assert Run(ids, 0, x) == Run(ids, 0, y);
  }

  lemma LongestInSuffix(ids: seq<seq<Lane>>, d: nat, x: Lane)
    requires d < |ids| && IsLongest(ids, d, x)
    ensures IsLongest(ids[d..], 0, x)
  {
    hide Run;
    RunOfSuffix(ids, d, 0, x);
    forall y | y in ids[d]
      ensures Run(ids[d..], 0, y) <= Run(ids[d..], 0, x)
    {
      RunOfSuffix(ids, d, 0, y);
    }
  }

  lemma ChoiceIsUnique(ids: seq<seq<Lane>>, next: Lane -> set<Lane>, previous: Lane, x: Lane, y: Lane, i: nat)
    requires i < |ids| && Follows(ids, next, previous, x, i) && TieInOrder(ids, next, previous, x, i)
    requires Follows(ids, next, previous, y, i) && TieInOrder(ids, next, previous, y, i)
    ensures x == y
  {
    hide Run, IsLongest, PickedInOrder, Continuations;
    if previous !in ids[i] {
      var onward := Continuations(ids, next, previous, i);
      if |onward| == 1 {
        OnlyMember(onward, x, y);
      } else {
        LongestInSuffix(ids, i, x);
        LongestInSuffix(ids, i, y);
        PickIsUnique(ids[i..], x, y);
      }
    }
  }

  lemma OnlyMember(s: set<Lane>, x: Lane, y: Lane)
    requires |s| == 1 && x in s && y in s
    ensures x == y
  {
    assert |s - {x}| == 0;
    assert y !in s - {x};
  }

  /** The candidates and the map's continuations admit one lane sequence. */
  lemma {:induction false} SelectionIsUnique(ids: seq<seq<Lane>>, next: Lane -> set<Lane>, best: seq<Lane>,
        other: seq<Lane>, i: nat)
    requires IsSelection(ids, next, best) && TiesInOrder(ids, next, best)
    requires IsSelection(ids, next, other) && TiesInOrder(ids, next, other)
    requires i < |best| && i < |other|
    ensures best[i] == other[i]
  {
    hide Run, IsLongest, PickedInOrder, Follows, TieInOrder;
    if i == 0 {
      PickIsUnique(ids, best[0], other[0]);
    } else {
      SelectionIsUnique(ids, next, best, other, i - 1);
      assert Follows(ids, next, best[i - 1], best[i], i) && TieInOrder(ids, next, best[i - 1], best[i], i);
      ChoiceIsUnique(ids, next, best[i - 1], best[i], other[i], i);
    }
  }

  /** Every chosen lane is offered, and a lane is left only where it is no longer offered. */
  lemma ChosenAreOffered(ids: seq<seq<Lane>>, next: Lane -> set<Lane>, best: seq<Lane>, i: nat)
    requires IsSelection(ids, next, best) && i < |best|
    ensures best[i] in ids[i]
    ensures i > 0 && best[i] != best[i - 1] ==> best[i - 1] !in ids[i]
  {
    hide Run;
    if i > 0 {
      assert Follows(ids, next, best[i - 1], best[i], i);
    }
  }

  // ----- lane changes

  function Changes(s: seq<Lane>, p: nat): nat
    decreases |s| - p
  {
    if p + 1 >= |s| then 0 else (if s[p + 1] != s[p] then 1 else 0) + Changes(s, p + 1)
  }

  /** Entries into a lane, from `p` on, that is not among the longest-lasting ones offered there. */
  ghost function ShortSighted(ids: seq<seq<Lane>>, s: seq<Lane>, p: nat): nat
    requires |s| <= |ids|
    decreases |s| - p
  {
    if p >= |s| then 0
    else
      var entered := p == 0 || s[p] != s[p - 1];
      (if entered && !IsLongest(ids, p, s[p]) then 1 else 0) + ShortSighted(ids, s, p + 1)
  }

  ghost predicate Admissible(ids: seq<seq<Lane>>, s: seq<Lane>) {
    |s| == |ids| && forall i :: 0 <= i < |s| ==> s[i] in ids[i]
  }

  /** The selection stays in a lane for as long as it is offered. */
  lemma {:induction false} StaysForRun(ids: seq<seq<Lane>>, next: Lane -> set<Lane>, best: seq<Lane>, p: nat, e: nat)
    requires IsSelection(ids, next, best) && |best| == |ids| && p <= e < |ids| && e < p + Run(ids, p, best[p])
    ensures best[e] == best[p]
    ensures Changes(best, p) == Changes(best, e) && ShortSighted(ids, best, p + 1) == ShortSighted(ids, best, e + 1)
    decreases e
  {
    hide IsLongest;
    if p < e {
      StaysForRun(ids, next, best, p, e - 1);
      assert Follows(ids, next, best[e - 1], best[e], e);
      assert best[p] in ids[e];
    }
  }

  /** A sequence that is elsewhere somewhere up to `e` has changed lane on the way. */
  lemma {:induction false} ChangesOnTheWay(s: seq<Lane>, p: nat, q: nat, e: nat)
    requires p <= q <= e < |s|
    ensures Changes(s, p) >= Changes(s, e) + if s[q] != s[p] then 1 else 0
    decreases e - p
  {
    if p < e {
      if q > p {
        ChangesOnTheWay(s, p + 1, q, e);
      } else {
        ChangesOnTheWay(s, p + 1, p + 1, e);
      }
    }
  }

  /**
   * The selection has at most as many changes as any admissible sequence, plus one for every time a
   * shortcut entered a lane that is not a longest-lasting one.
   */
  lemma {:induction false} NearlyFewestChanges(ids: seq<seq<Lane>>, next: Lane -> set<Lane>, best: seq<Lane>,
        s: seq<Lane>, p: nat)
    requires IsSelection(ids, next, best) && |best| == |ids| && Admissible(ids, s) && p < |ids|
    requires p == 0 || best[p] != best[p - 1]
    ensures Changes(best, p) <= Changes(s, p) + ShortSighted(ids, best, p)
    decreases |ids| - p
  {
    hide Run, IsLongest;
    ChosenAreOffered(ids, next, best, p);
    RunReaches(ids, p, best[p], p);
    var e := p + Run(ids, p, best[p]);
    RunBounds(ids, p, best[p]);
    StaysForRun(ids, next, best, p, e - 1);
    if e < |ids| {
      ChosenAreOffered(ids, next, best, e);
      NearlyFewestChanges(ids, next, best, s, e);
      if IsLongest(ids, p, best[p]) {
        var q := MustLeave(ids, p, best[p], s);
        ChangesOnTheWay(s, p, q, e);
      } else {
        ChangesOnTheWay(s, p, p, e);
      }
    }
  }

  lemma RunBounds(ids: seq<seq<Lane>>, p: nat, x: Lane)
    requires p < |ids|
    ensures p + Run(ids, p, x) <= |ids|
    ensures p + Run(ids, p, x) < |ids| ==> x !in ids[p + Run(ids, p, x)]
  {
  }

  /** While the longest-lasting lane lasts, every other admissible choice has been left. */
  lemma MustLeave(ids: seq<seq<Lane>>, p: nat, x: Lane, s: seq<Lane>) returns (q: nat)
    requires p < |ids| && Admissible(ids, s) && IsLongest(ids, p, x) && p + Run(ids, p, x) < |ids|
    ensures p <= q <= p + Run(ids, p, x) && s[q] != s[p]
  {
    hide Run;
    q := p + Run(ids, p, s[p]);
    RunBounds(ids, p, s[p]);
  }

  /** Without short-sighted entries no admissible sequence has fewer lane changes. */
  lemma FewestChanges(ids: seq<seq<Lane>>, next: Lane -> set<Lane>, best: seq<Lane>, s: seq<Lane>)
    requires IsSelection(ids, next, best) && |best| == |ids| && Admissible(ids, s) && ShortSighted(ids, best, 0) == 0
    ensures Changes(best, 0) <= Changes(s, 0)
  {
    hide *;
    SelectionNonEmpty(ids, next, best);
    NearlyFewestChanges(ids, next, best, s, 0);
  }

  lemma SelectionNonEmpty(ids: seq<seq<Lane>>, next: Lane -> set<Lane>, best: seq<Lane>)
    requires IsSelection(ids, next, best)
    ensures |ids| > 0
  {
  }

  /** When the shortcut never fires no entry is short-sighted. */
  lemma {:induction false} NoShortcutNoShortSight(ids: seq<seq<Lane>>, next: Lane -> set<Lane>, best: seq<Lane>, p: nat)
    requires IsSelection(ids, next, best)
    requires forall i :: 1 <= i < |best| && best[i - 1] !in ids[i] ==> |Continuations(ids, next, best[i - 1], i)| != 1
    ensures ShortSighted(ids, best, p) == 0
    decreases |best| - p
  {
    hide IsLongest;
    if p < |best| {
      NoShortcutNoShortSight(ids, next, best, p + 1);
      if p > 0 {
        assert Follows(ids, next, best[p - 1], best[p], p);
      }
    }
  }

  // ----- exactly how far from the fewest

  /** The longest run among `lanes`. */
  function LongestRun(ids: seq<seq<Lane>>, p: nat, lanes: seq<Lane>): (r: nat)
    ensures forall y :: y in lanes ==> Run(ids, p, y) <= r
    ensures |lanes| > 0 ==> exists y :: y in lanes && Run(ids, p, y) == r
  {
    if |lanes| == 0 then 0
    else Max(Run(ids, p, lanes[0]), LongestRun(ids, p, lanes[1..]))
  }

  /** How far one lane can reach from waypoint `p`. */
  ghost function Reach(ids: seq<seq<Lane>>, p: nat): (e: nat)
    requires AllOffered(ids) && p < |ids|
    ensures p < e <= |ids|
  {
    var r := LongestRun(ids, p, ids[p]);
    var y :| y in ids[p] && Run(ids, p, y) == r;
    RunReaches(ids, p, y, p);
    p + r
  }

  lemma ReachBounds(ids: seq<seq<Lane>>, p: nat, y: Lane)
    requires AllOffered(ids) && p < |ids| && y in ids[p]
    ensures p < p + Run(ids, p, y) <= Reach(ids, p)
  {
    RunReaches(ids, p, y, p);
    hide Run, LongestRun;
  }

  lemma ReachedBy(ids: seq<seq<Lane>>, p: nat) returns (y: Lane)
    requires AllOffered(ids) && p < |ids|
    ensures y in ids[p] && p + Run(ids, p, y) == Reach(ids, p)
  {
    hide Run, LongestRun;
    var r := LongestRun(ids, p, ids[p]);
    y :| y in ids[p] && Run(ids, p, y) == r;
  }

  /** How many lanes it takes to get from waypoint `p` to the end, read off the candidates alone. */
  ghost function Need(ids: seq<seq<Lane>>, p: nat): nat
    requires AllOffered(ids) && p <= |ids|
    decreases |ids| - p
  {
    if p == |ids| then 0 else 1 + Need(ids, Reach(ids, p))
  }

  lemma {:induction false} RunFrom(ids: seq<seq<Lane>>, p: nat, q: nat, x: Lane)
    requires p <= q < p + Run(ids, p, x) && p <= |ids|
    ensures x in ids[q] && q + Run(ids, q, x) == p + Run(ids, p, x)
    decreases q - p
  {
    if p < q {
      RunFrom(ids, p + 1, q, x);
    }
  }

  /** On the way to the farthest reach the reach does not shrink. */
  lemma ReachOn(ids: seq<seq<Lane>>, p: nat, q: nat)
    requires AllOffered(ids) && p < |ids| && p <= q < Reach(ids, p)
    ensures q < |ids| && Reach(ids, q) >= Reach(ids, p)
  {
    hide Run, Reach, AllOffered;
    var y := ReachedBy(ids, p);
    RunFrom(ids, p, q, y);
    ReachBounds(ids, q, y);
  }

  /** A later start never needs more lanes. */
  lemma {:induction false} NeedFalls(ids: seq<seq<Lane>>, p: nat, q: nat)
    requires AllOffered(ids) && p <= q <= |ids|
    ensures Need(ids, p) >= Need(ids, q)
    decreases |ids| - p
  {
    hide Reach, AllOffered;
    if p < q < |ids| {
      var e := Reach(ids, p);
      if e <= q {
        NeedFalls(ids, e, q);
      } else {
        ReachOn(ids, p, q);
        NeedFalls(ids, e, Reach(ids, q));
      }
    }
  }

  /** What entering lane `x` at `p` costs, against the lane that reaches farthest: nothing, or one lane more. */
  lemma EntryCost(ids: seq<seq<Lane>>, p: nat, x: Lane)
    requires AllOffered(ids) && p < |ids| && x in ids[p]
    ensures p < p + Run(ids, p, x) <= Reach(ids, p)
    ensures 0 <= Need(ids, p + Run(ids, p, x)) - Need(ids, Reach(ids, p)) <= 1
    ensures IsLongest(ids, p, x) ==> p + Run(ids, p, x) == Reach(ids, p)
  {
    hide *;
    ReachBounds(ids, p, x);
    LongestReaches(ids, p, x);
    var e, far := p + Run(ids, p, x), Reach(ids, p);
    if e < far {
      ReachOn(ids, p, e);
    }
    OneMoreAtMost(ids, e, far);
  }

  lemma OneMoreAtMost(ids: seq<seq<Lane>>, e: nat, far: nat)
    requires AllOffered(ids) && e <= far <= |ids| && (e < far ==> Reach(ids, e) >= far)
    ensures 0 <= Need(ids, e) - Need(ids, far) <= 1
  {
    hide Reach, AllOffered;
    NeedFalls(ids, e, far);
    if e < far {
      NeedFalls(ids, far, Reach(ids, e));
    }
  }

  lemma LongestReaches(ids: seq<seq<Lane>>, p: nat, x: Lane)
    requires AllOffered(ids) && p < |ids|
    ensures IsLongest(ids, p, x) ==> p + Run(ids, p, x) == Reach(ids, p)
  {
    hide Run, Reach, AllOffered;
    if IsLongest(ids, p, x) {
      var y := ReachedBy(ids, p);
      ReachBounds(ids, p, x);
    }
  }

  ghost predicate Enters(s: seq<Lane>, p: nat)
    requires p < |s|
  {
    p == 0 || s[p] != s[p - 1]
  }

  /** How many lanes more the entry at `p` takes than the farthest-reaching one: 0 or 1. */
  ghost function DetourAt(ids: seq<seq<Lane>>, s: seq<Lane>, p: nat): int
    requires AllOffered(ids) && p < |s| <= |ids|
  {
    if Enters(s, p) then Need(ids, p + Run(ids, p, s[p])) - Need(ids, Reach(ids, p)) else 0
  }

  ghost function Detours(ids: seq<seq<Lane>>, s: seq<Lane>, p: nat): int
    requires AllOffered(ids) && |s| <= |ids|
    decreases |s| - p
  {
    if p >= |s| then 0 else DetourAt(ids, s, p) + Detours(ids, s, p + 1)
  }

  lemma {:induction false} NoDetourWhileStaying(ids: seq<seq<Lane>>, next: Lane -> set<Lane>, best: seq<Lane>, p: nat,
        e: nat)
    requires AllOffered(ids) && IsSelection(ids, next, best) && |best| == |ids| && p <= e < |ids|
             && e < p + Run(ids, p, best[p])
    ensures Detours(ids, best, p + 1) == Detours(ids, best, e + 1)
    decreases e
  {
    hide *;
    if p < e {
      NoDetourWhileStaying(ids, next, best, p, e - 1);
      StaysForRun(ids, next, best, p, e);
      StaysForRun(ids, next, best, p, e - 1);
      StayIsNoDetour(ids, best, e);
    }
  }

  lemma StayIsNoDetour(ids: seq<seq<Lane>>, s: seq<Lane>, p: nat)
    requires AllOffered(ids) && 0 < p < |s| <= |ids| && s[p] == s[p - 1]
    ensures Detours(ids, s, p) == Detours(ids, s, p + 1)
  {
    hide Need, Run, Reach, AllOffered;
  }

  /** From an entry on, the lanes the selection uses are the lanes needed plus its detours. */
  lemma {:induction false} ExcessIsDetours(ids: seq<seq<Lane>>, next: Lane -> set<Lane>, best: seq<Lane>, p: nat)
    requires AllOffered(ids) && IsSelection(ids, next, best) && |best| == |ids| && p < |ids| && Enters(best, p)
    ensures Changes(best, p) + 1 == Need(ids, p) + Detours(ids, best, p)
    decreases |ids| - p
  {
    hide Run, IsLongest, AllOffered, IsSelection, Reach;
    ChosenAreOffered(ids, next, best, p);
    EntryCost(ids, p, best[p]);
    var e := p + Run(ids, p, best[p]);
    RunBounds(ids, p, best[p]);
    StaysForRun(ids, next, best, p, e - 1);
    NoDetourWhileStaying(ids, next, best, p, e - 1);
    if e < |ids| {
      ChosenAreOffered(ids, next, best, e);
      ExcessIsDetours(ids, next, best, e);
    }
  }

  /** Where a sequence first leaves the lane it has at `p`. */
  lemma {:induction false} LeavesAt(ids: seq<seq<Lane>>, s: seq<Lane>, p: nat) returns (e: nat)
    requires Admissible(ids, s) && p < |s|
    ensures p < e <= |s| && e <= p + Run(ids, p, s[p])
    ensures Changes(s, p) == if e < |s| then 1 + Changes(s, e) else 0
    decreases |s| - p
  {
    if p + 1 < |s| && s[p + 1] == s[p] {
      e := LeavesAt(ids, s, p + 1);
    } else {
      e := p + 1;
    }
  }

  /** No admissible sequence uses fewer lanes than needed. */
  lemma {:induction false} NeedIsLeast(ids: seq<seq<Lane>>, s: seq<Lane>, p: nat)
    requires AllOffered(ids) && Admissible(ids, s) && p < |ids|
    ensures Changes(s, p) + 1 >= Need(ids, p)
    decreases |ids| - p
  {
    hide Run, Reach, AllOffered, Changes;
    var e := LeavesAt(ids, s, p);
    EntryCost(ids, p, s[p]);
    NeedFalls(ids, e, Reach(ids, p));
    if e < |ids| {
      NeedIsLeast(ids, s, e);
    }
  }

  lemma {:induction false} SameFrom(s: seq<Lane>, t: seq<Lane>, p: nat)
    requires |s| == |t| && forall i :: p <= i < |s| ==> s[i] == t[i]
    ensures Changes(s, p) == Changes(t, p)
    decreases |s| - p
  {
    if p + 1 < |s| {
      SameFrom(s, t, p + 1);
    }
  }

  lemma {:induction false} ConstantUpTo(s: seq<Lane>, p: nat, e: nat)
    requires p < e <= |s| && forall i :: p <= i < e ==> s[i] == s[p]
    ensures Changes(s, p) == Changes(s, e - 1)
    decreases e - p
  {
    if p + 1 < e {
      ConstantUpTo(s, p + 1, e);
    }
  }

  /** Some admissible sequence uses just the lanes needed from `p` on. */
  lemma {:induction false} NeedIsReached(ids: seq<seq<Lane>>, p: nat) returns (s: seq<Lane>)
    requires AllOffered(ids) && p <= |ids|
    ensures Admissible(ids, s)
    ensures p < |ids| ==> Changes(s, p) + 1 == Need(ids, p)
    decreases |ids| - p
  {
    hide Run, Reach, Changes;
    if p == |ids| {
      s := seq(|ids|, i requires 0 <= i < |ids| => ids[i][0]);
    } else {
      var e := Reach(ids, p);
      var y := ReachedBy(ids, p);
      var t := NeedIsReached(ids, e);
      s := Spliced(ids, p, e, y, t);
    }
  }

  /** Staying in a lane from `p` to `e` and going on as `t` does takes one change more than `t` from there. */
  lemma Spliced(ids: seq<seq<Lane>>, p: nat, e: nat, y: Lane, t: seq<Lane>) returns (s: seq<Lane>)
    requires p < e <= |ids| && e == p + Run(ids, p, y) && Admissible(ids, t)
    ensures Admissible(ids, s) && Changes(s, p) == if e < |ids| then 1 + Changes(t, e) else 0
  {
    hide Run;
    s := seq(|ids|, i requires 0 <= i < |ids| => if p <= i < e then y else t[i]);
    forall i | p <= i < e
      ensures y in ids[i]
    {
      RunFrom(ids, p, i, y);
    }
    ConstantUpTo(s, p, e);
    if e < |ids| {
      RunBounds(ids, p, y);
      SameFrom(s, t, e);
    }
  }

  lemma {:induction false} DetoursAreSmall(ids: seq<seq<Lane>>, next: Lane -> set<Lane>, best: seq<Lane>, p: nat)
    requires AllOffered(ids) && IsSelection(ids, next, best) && p <= |best|
    ensures Detours(ids, best, p) >= 0
    ensures Detours(ids, best, p) == 0 <==> forall i :: p <= i < |best| ==> DetourAt(ids, best, i) == 0
    decreases |best| - p
  {
    hide Run, IsLongest, AllOffered, IsSelection, DetourAt;
    if p < |best| {
      DetoursAreSmall(ids, next, best, p + 1);
      DetourOnlyAtShortcut(ids, next, best, p);
    }
  }

  /** An entry costs at most one lane more than the farthest-reaching one, and only where the shortcut took it. */
  lemma DetourOnlyAtShortcut(ids: seq<seq<Lane>>, next: Lane -> set<Lane>, best: seq<Lane>, p: nat)
    requires AllOffered(ids) && IsSelection(ids, next, best) && p < |best|
    ensures 0 <= DetourAt(ids, best, p) <= 1
    ensures DetourAt(ids, best, p) != 0 ==>
              p > 0 && best[p - 1] !in ids[p] && |Continuations(ids, next, best[p - 1], p)| == 1
  {
    hide Run, IsLongest, AllOffered, Need;
    ChosenAreOffered(ids, next, best, p);
    EntryCost(ids, p, best[p]);
    if p > 0 {
      assert Follows(ids, next, best[p - 1], best[p], p);
    }
  }

  /** The selection has as many changes as a sequence with the fewest, plus one for each detour. */
  lemma ChangesOverFewest(ids: seq<seq<Lane>>, next: Lane -> set<Lane>, best: seq<Lane>) returns (s: seq<Lane>)
    requires AllOffered(ids) && IsSelection(ids, next, best) && |best| == |ids|
    ensures Admissible(ids, s) && forall t :: Admissible(ids, t) ==> Changes(s, 0) <= Changes(t, 0)
    ensures Changes(best, 0) == Changes(s, 0) + Detours(ids, best, 0)
  {
    hide IsSelection, Changes, Need, Detours, Admissible;
    SelectionNonEmpty(ids, next, best);
    ExcessIsDetours(ids, next, best, 0);
    s := NeedIsReached(ids, 0);
    forall t | Admissible(ids, t)
      ensures Changes(s, 0) <= Changes(t, 0)
    {
      NeedIsLeast(ids, t, 0);
    }
  }

  /** No admissible sequence has fewer changes exactly when no entry is a detour. */
  lemma FewestExactlyWithoutDetours(ids: seq<seq<Lane>>, next: Lane -> set<Lane>, best: seq<Lane>)
    requires AllOffered(ids) && IsSelection(ids, next, best) && |best| == |ids|
    ensures (forall s :: Admissible(ids, s) ==> Changes(best, 0) <= Changes(s, 0))
            <==> forall p :: 0 <= p < |best| ==> DetourAt(ids, best, p) == 0
  {
    hide IsSelection, Changes, Need, Detours, Admissible, DetourAt, AllOffered;
    var s := ChangesOverFewest(ids, next, best);
    DetoursAreSmall(ids, next, best, 0);
  }

  /** Wherever one lane ends and has a single continuation, that continuation costs no lane more. */
  ghost predicate ShortcutsAreFree(ids: seq<seq<Lane>>, next: Lane -> set<Lane>)
    requires AllOffered(ids)
  {
    forall p, x, y :: 1 <= p < |ids| && IsOnlyWay(ids, next, p, x, y) ==>
      Need(ids, p + Run(ids, p, y)) == Need(ids, Reach(ids, p))
  }

  /** Lane `x` ends before waypoint `p`, where `y` is its only continuation. */
  ghost predicate IsOnlyWay(ids: seq<seq<Lane>>, next: Lane -> set<Lane>, p: int, x: Lane, y: Lane)
    requires 1 <= p < |ids|
  {
    x in ids[p - 1] && x !in ids[p] && Continuations(ids, next, x, p) == {y}
  }

  /** On a map like that the selection has the fewest changes: a condition on the candidates and the map alone. */
  lemma FewestWhereShortcutsAreFree(ids: seq<seq<Lane>>, next: Lane -> set<Lane>, best: seq<Lane>)
    requires AllOffered(ids) && IsSelection(ids, next, best) && |best| == |ids| && ShortcutsAreFree(ids, next)
    ensures forall s :: Admissible(ids, s) ==> Changes(best, 0) <= Changes(s, 0)
  {
    hide IsSelection, Changes, Need, Admissible, AllOffered, Reach, Run;
    forall p | 0 <= p < |best|
      ensures DetourAt(ids, best, p) == 0
    {
      FreeEntry(ids, next, best, p);
    }
    FewestExactlyWithoutDetours(ids, next, best);
  }

  lemma FreeEntry(ids: seq<seq<Lane>>, next: Lane -> set<Lane>, best: seq<Lane>, p: nat)
    requires AllOffered(ids) && IsSelection(ids, next, best) && |best| == |ids| && ShortcutsAreFree(ids, next)
             && p < |ids|
    ensures DetourAt(ids, best, p) == 0
  {
    hide Run, IsLongest, Need, AllOffered, Reach;
    DetourOnlyAtShortcut(ids, next, best, p);
    if DetourAt(ids, best, p) != 0 {
      var x, y := best[p - 1], best[p];
      ChosenAreOffered(ids, next, best, p - 1);
      assert Follows(ids, next, x, y, p);
      var onward := Continuations(ids, next, x, p);
      OnlyOne(onward, y);
      OnlyWayIsFree(ids, next, p, x, y);
    }
  }

  lemma OnlyWayIsFree(ids: seq<seq<Lane>>, next: Lane -> set<Lane>, p: nat, x: Lane, y: Lane)
    requires AllOffered(ids) && ShortcutsAreFree(ids, next) && 1 <= p < |ids|
    requires x in ids[p - 1] && x !in ids[p] && Continuations(ids, next, x, p) == {y}
    ensures Need(ids, p + Run(ids, p, y)) == Need(ids, Reach(ids, p))
  {
    hide Need, Run, Reach, AllOffered;
    assert IsOnlyWay(ids, next, p, x, y);
  }

  lemma OnlyOne(s: set<Lane>, y: Lane)
    requires |s| == 1 && y in s
    ensures s == {y}
  {
    forall x | x in s
      ensures x == y
    {
      OnlyMember(s, x, y);
    }
  }

  /** One short-sighted shortcut can really cost one change. */
  lemma ShortcutCanCost()
    ensures var ids, next := [["A"], ["B", "C"], ["C"]], (x: Lane) => if x == "A" then {"B"} else {};
            var best, s := ["A", "B", "C"], ["A", "C", "C"];
            && IsSelection(ids, next, best) && Admissible(ids, s)
            && Changes(best, 0) == Changes(s, 0) + 1
  {
    var ids, next := [["A"], ["B", "C"], ["C"]], (x: Lane) => if x == "A" then {"B"} else {};
    var best, s := ["A", "B", "C"], ["A", "C", "C"];
    assert Continuations(ids, next, "A", 1) == {"B"};
    assert Continuations(ids, next, "B", 2) == {};
    assert ids[0] == ["A"] && ids[1] == ["B", "C"] && ids[2] == ["C"];
    assert Follows(ids, next, best[0], best[1], 1);
    assert Follows(ids, next, best[1], best[2], 2);
    assert Changes(best, 2) == 0 && Changes(s, 2) == 0;
    assert "B" != "A" && "C" != "B" && "C" != "A" by {
      assert "A"[0] == 'A' && "B"[0] == 'B' && "C"[0] == 'C';
    }
    assert Changes(best, 1) == 1 && Changes(s, 1) == 0;
  }
}
