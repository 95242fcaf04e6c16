/**
 * The stamina walks of the Quokka maze, stated over a path's food flags.
 *
 * For a path p of n >= 1 vertices, `food[i]` says whether p[i] has food and
 * `linked[i]` (for i < n - 1) whether p[i + 1] is a neighbour of p[i].
 * A walker starts at p[0] with stamina k; every hop costs one unit and
 * arriving at a food vertex refills the stamina to k.
 */
module Walks {

  /** The plain walk from position `i` with `stamina` left: the loop of is_reachable. */
  function ReachFrom(food: seq<bool>, linked: seq<bool>, k: int, i: nat, stamina: int): bool
    requires i < |food| && |linked| == |food| - 1
    decreases |food| - i
  {
    if i == |food| - 1 then true
    else if stamina == 0 then false
    else if !linked[i] then false
    else ReachFrom(food, linked, k, i + 1, if food[i + 1] then k else stamina - 1)
  }

  /** is_reachable: the plain walk from the first vertex with full stamina. */
  function Reachable(food: seq<bool>, linked: seq<bool>, k: int): bool
    requires |food| >= 1 && |linked| == |food| - 1
  {
    ReachFrom(food, linked, k, 0, k)
  }

  /**
   * The greedy walk with an unlimited supply of extra food, from position `i`
   * with `stamina` left: whenever the stamina is 0 before the end of the path,
   * food is placed at the current position and the stamina refilled. The
   * result lists the positions where food was placed.
   */
  function PlacementsFrom(food: seq<bool>, k: int, i: nat, stamina: int): seq<nat>
    requires i < |food|
    decreases |food| - i
  {
    if i == |food| - 1 then []
    else
      var refilled := if stamina == 0 then k else stamina;
      var next := if food[i + 1] then k else refilled - 1;
      (if stamina == 0 then [i] else []) + PlacementsFrom(food, k, i + 1, next)
  }

  /**
   * The greedy walk places food at strictly increasing positions, never at
   * the last one, and at its starting position exactly when it starts
   * exhausted.
   */
  lemma {:induction false} PlacementsFromShape(food: seq<bool>, k: int, i: nat, stamina: int)
    requires i < |food|
    ensures var r := PlacementsFrom(food, k, i, stamina);
            && (forall j :: 0 <= j < |r| ==> i <= r[j] < |food| - 1)
            && (forall a, b :: 0 <= a < b < |r| ==> r[a] < r[b])
            && ((|r| > 0 && r[0] == i) <==> (stamina == 0 && i < |food| - 1))
    decreases |food| - i
  {
    if i < |food| - 1 {
      PlacementsFromShape(food, k, i + 1, if food[i + 1] then k else (if stamina == 0 then k else stamina) - 1);
    }
  }

  /** One step of the greedy walk, spelled out. */
  lemma PlacementsFromStep(food: seq<bool>, k: int, i: nat, stamina: int)
    requires i < |food| - 1
    ensures PlacementsFrom(food, k, i, stamina)
            == (if stamina == 0 then [i] else [])
               + PlacementsFrom(food, k, i + 1, if food[i + 1] then k else (if stamina == 0 then k else stamina) - 1)
  {
  }

  /** get_location2: the positions where the greedy walk places food. */
  function Placements(food: seq<bool>, k: int): seq<nat>
    requires |food| >= 1
  {
    PlacementsFrom(food, k, 0, k)
  }

  /** How many extra foods a budget `x` allows: the walks test `food_left > 0`. */
  function Budget(x: int): nat
  {
    if x > 0 then x else 0
  }

  /** The food flags after placing food at the positions in `placed`. */
  function WithFood(food: seq<bool>, placed: seq<nat>): (r: seq<bool>)
    ensures |r| == |food|
    ensures forall j :: 0 <= j < |food| ==> r[j] == (food[j] || j in placed)
  {
    seq(|food|, j requires 0 <= j < |food| => food[j] || j in placed)
  }

  /** `more` keeps every food of `food` (and may add some). */
  ghost predicate Covers(food: seq<bool>, more: seq<bool>)
  {
    |more| == |food| && forall j :: 0 <= j < |food| && food[j] ==> more[j]
  }

  /** The number of positions from `from` on where `more` has food and `food` has none. */
  function AddedFrom(food: seq<bool>, more: seq<bool>, from: nat): (r: nat)
    requires |more| == |food|
    ensures from >= |food| ==> r == 0
    decreases |food| - from
  {
    if from >= |food| then 0
    else (if more[from] && !food[from] then 1 else 0) + AddedFrom(food, more, from + 1)
  }

  /** The most recent position at or before `j` that has food, or 0 (the start). */
  function LastFood(food: seq<bool>, j: nat): (r: nat)
    requires j < |food|
    ensures r <= j && (r == 0 || food[r])
    ensures forall m :: r < m <= j ==> !food[m]
  {
    if j == 0 then 0
    else if food[j] then j
    else LastFood(food, j - 1)
  }

  ghost predicate AllLinked(linked: seq<bool>)
  {
    forall j :: 0 <= j < |linked| ==> linked[j]
  }

  /**
   * The closed form of the plain walk's condition: every position before the
   * last is fewer than k hops past the most recent food (or the start). Put
   * differently, successive anchors (the start, each later food vertex and
   * the end) are at most k hops apart.
   */
  ghost predicate GapsWithin(food: seq<bool>, k: int)
  {
    forall j :: 0 <= j < |food| - 1 ==> FedAt(food, k, j)
  }

  /** Position `j` is fewer than k hops past the most recent food (or the start). */
  ghost predicate FedAt(food: seq<bool>, k: int, j: nat)
    requires j < |food|
  {
    j - LastFood(food, j) < k
  }

  lemma {:induction false} ReachFromIffGaps(food: seq<bool>, linked: seq<bool>, k: int, i: nat)
    requires i < |food| && |linked| == |food| - 1
    requires k >= 0 && i - LastFood(food, i) <= k
    ensures ReachFrom(food, linked, k, i, k - (i - LastFood(food, i)))
            <==> (forall j :: i <= j < |linked| ==> linked[j])
                 && (forall j :: i <= j < |food| - 1 ==> FedAt(food, k, j))
    decreases |food| - i
  {
    if i < |food| - 1 {
      if i - LastFood(food, i) < k {
        ReachFromIffGaps(food, linked, k, i + 1);
      } else {
        assert !FedAt(food, k, i);
      }
    }
  }

  /**
   * is_reachable accepts exactly when every hop is along an edge and the
   * anchors of the path are at most k hops apart.
   */
  lemma ReachableIffGaps(food: seq<bool>, linked: seq<bool>, k: int)
    requires |food| >= 1 && |linked| == |food| - 1 && k >= 0
    ensures Reachable(food, linked, k) <==> AllLinked(linked) && GapsWithin(food, k)
  {
    assert LastFood(food, 0) == 0;
    ReachFromIffGaps(food, linked, k, 0);
  }

  /** is_reachable is monotone in k: more stamina never hurts. */
  lemma ReachableMonotone(food: seq<bool>, linked: seq<bool>, k: int, k': int)
    requires |food| >= 1 && |linked| == |food| - 1 && 0 <= k <= k'
    requires Reachable(food, linked, k)
    ensures Reachable(food, linked, k')
  {
    ReachableIffGaps(food, linked, k);
    forall j | 0 <= j < |food| - 1
      ensures FedAt(food, k', j)
    {
      assert FedAt(food, k, j);
    }
    ReachableIffGaps(food, linked, k');
  }

  /** A one-vertex path is always accepted, with no food placed. */
  lemma SingleVertex(food: seq<bool>, k: int)
    requires |food| == 1
    ensures Reachable(food, [], k) && Placements(food, k) == []
  {
  }

  /** The first placement from position i + 1 is at i + 1 exactly when the walk arrives there exhausted. */
  lemma PlacementsFromHead(food: seq<bool>, k: int, i: nat, stamina: int)
    requires i < |food|
    ensures i in PlacementsFrom(food, k, i, stamina) <==> (stamina == 0 && i < |food| - 1)
  {
    var r := PlacementsFrom(food, k, i, stamina);
    PlacementsFromShape(food, k, i, stamina);
    if i in r {
      var m :| 0 <= m < |r| && r[m] == i;
      assert r[0] <= r[m];
    }
  }

  /** `more` has food at each position after `from` exactly where `food` has or `placed` puts it. */
  ghost predicate MarkedAfter(food: seq<bool>, more: seq<bool>, placed: seq<nat>, from: nat)
  {
    |more| == |food| && forall j :: from < j < |food| ==> more[j] == (food[j] || j in placed)
  }

  /** Dropping a placement at position i keeps the marks after i + 1 and decides the mark at i + 1. */
  lemma MarkedAfterStep(food: seq<bool>, more: seq<bool>, rest: seq<nat>, i: nat, head: seq<nat>)
    requires MarkedAfter(food, more, head + rest, i) && i + 1 < |food|
    requires head == [] || head == [i]
    ensures MarkedAfter(food, more, rest, i + 1)
    ensures more[i + 1] == (food[i + 1] || i + 1 in rest)
  {
    forall j | i < j < |food|
      ensures more[j] == (food[j] || j in rest)
    {
      assert j in head + rest <==> j in rest;
    }
  }

  lemma {:induction false} PlacementsFromSound(food: seq<bool>, linked: seq<bool>, more: seq<bool>, k: int, i: nat, stamina: int)
    requires i < |food| && |linked| == |food| - 1 && AllLinked(linked)
    requires k >= 1 && 0 <= stamina <= k
    requires MarkedAfter(food, more, PlacementsFrom(food, k, i, stamina), i)
    ensures ReachFrom(more, linked, k, i, if stamina == 0 then k else stamina)
    decreases |food| - i
  {
    if i < |food| - 1 {
      var next := if food[i + 1] then k else (if stamina == 0 then k else stamina) - 1;
      var rest := PlacementsFrom(food, k, i + 1, next);
      MarkedAfterStep(food, more, rest, i, if stamina == 0 then [i] else []);
      PlacementsFromHead(food, k, i + 1, next);
      PlacementsFromSound(food, linked, more, k, i + 1, next);
    }
  }

  /**
   * Placing food where the greedy walk places it makes the plain walk accept
   * (for k >= 1): the list get_location returns is a valid placement.
   */
  lemma PlacementsSound(food: seq<bool>, linked: seq<bool>, k: int)
    requires |food| >= 1 && |linked| == |food| - 1 && AllLinked(linked) && k >= 1
    ensures Reachable(WithFood(food, Placements(food, k)), linked, k)
  {
    PlacementsFromSound(food, linked, WithFood(food, Placements(food, k)), k, 0, k);
  }

  /**
   * Starting with less stamina costs the greedy walk at least as many
   * placements, and at most one more.
   */
  lemma {:induction false} PlacementsStable(food: seq<bool>, k: int, i: nat, a: int, b: int)
    requires i < |food| && k >= 1 && 0 <= a <= b <= k
    ensures |PlacementsFrom(food, k, i, b)| <= |PlacementsFrom(food, k, i, a)| <= |PlacementsFrom(food, k, i, b)| + 1
    decreases |food| - i
  {
    if i < |food| - 1 {
      var na := if food[i + 1] then k else (if a == 0 then k else a) - 1;
      var nb := if food[i + 1] then k else (if b == 0 then k else b) - 1;
      if a == 0 && b != 0 {
        PlacementsStable(food, k, i + 1, nb, na);
      } else {
        PlacementsStable(food, k, i + 1, na, nb);
      }
    }
  }

  lemma {:induction false} PlacementsFromOptimal(food: seq<bool>, linked: seq<bool>, more: seq<bool>, k: int, i: nat, stamina: int, p: int)
    requires i < |food| && |linked| == |food| - 1 && Covers(food, more)
    requires k >= 1 && 0 <= p <= stamina <= k
    requires ReachFrom(more, linked, k, i, p)
    ensures |PlacementsFrom(food, k, i, stamina)| <= AddedFrom(food, more, i + 1)
    decreases |food| - i
  {
    if i < |food| - 1 {
      var next := if food[i + 1] then k else stamina - 1;
      if food[i + 1] || !more[i + 1] {
        PlacementsFromOptimal(food, linked, more, k, i + 1, next, if more[i + 1] then k else p - 1);
      } else {
        PlacementsFromOptimal(food, linked, more, k, i + 1, k, k);
        PlacementsStable(food, k, i + 1, next, k);
      }
    }
  }

  /**
   * The greedy placement is optimal: any way of adding food that makes the
   * plain walk accept adds at least as many foods as the greedy walk places.
   * This is what makes get_location2 a minimum for its path.
   */
  lemma PlacementsOptimal(food: seq<bool>, linked: seq<bool>, more: seq<bool>, k: int)
    requires |food| >= 1 && |linked| == |food| - 1 && Covers(food, more) && k >= 0
    requires Reachable(more, linked, k)
    ensures |Placements(food, k)| <= AddedFrom(food, more, 0)
  {
    if k >= 1 {
      PlacementsFromOptimal(food, linked, more, k, 0, k, k);
    }
  }

  /**
   * The budgeted walk as written, for k = 0: with food left it refills the
   * stamina to 0 and then decrements it to -1. The stamina reads as 0 again
   * only after a food vertex resets it, and each such vertex before the end
   * costs one more placement. So a three-vertex path without food is accepted
   * with one placement, although no placement at all lets the plain walk
   * cross a single hop with k = 0; with food on its middle vertex it costs two.
   */
  lemma ZeroBoundAcceptsAfterOnePlacement()
    ensures Placements([false, false, false], 0) == [0]
    ensures |Placements([false, false, false], 0)| <= Budget(1)
    ensures forall more :: |more| == 3 ==> !Reachable(more, [true, true], 0)
    ensures Placements([false, true, false], 0) == [0, 1]
  {
    assert PlacementsFrom([false, false, false], 0, 2, -2) == [];
    assert PlacementsFrom([false, false, false], 0, 1, -1) == [];
    assert PlacementsFrom([false, true, false], 0, 2, -1) == [];
  }

  /**
   * The budgeted acceptance as evidently intended: with k = 0 no hop can be
   * made, so only a one-vertex path is accepted; for k >= 1 it agrees with
   * the walk as written.
   */
  function AcceptsWithinFixed(food: seq<bool>, k: int, x: int): bool
    requires |food| >= 1
  {
    (k >= 1 || |food| == 1) && |Placements(food, k)| <= Budget(x)
  }

  /**
   * The corrected budgeted walk accepts exactly when at most x extra foods
   * can make the plain walk accept: if it accepts, its own placement does it;
   * if some covering food assignment does it, the walk accepts.
   */
  lemma AcceptsWithinFixedExact(food: seq<bool>, linked: seq<bool>, k: int, x: int)
    requires |food| >= 1 && |linked| == |food| - 1 && AllLinked(linked) && k >= 0 && x >= 0
    ensures AcceptsWithinFixed(food, k, x) ==>
              |Placements(food, k)| <= x && Reachable(WithFood(food, Placements(food, k)), linked, k)
    ensures forall more :: Covers(food, more) && Reachable(more, linked, k) && AddedFrom(food, more, 0) <= x
              ==> AcceptsWithinFixed(food, k, x)
  {
    if AcceptsWithinFixed(food, k, x) && k >= 1 {
      PlacementsSound(food, linked, k);
    }
    forall more | Covers(food, more) && Reachable(more, linked, k) && AddedFrom(food, more, 0) <= x
      ensures AcceptsWithinFixed(food, k, x)
    {
      PlacementsOptimal(food, linked, more, k);
    }
  }
}
