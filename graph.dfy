/**
 * The Quokka maze: an undirected graph of locations, some with food, and the
 * searches for a simple path along which the quokkas never go more than k
 * hops without food (possibly after placing extra food).
 */
module Maze {
  import opened Vertices
  import Walks

  datatype Option<T> = None | Some(value: T)

  ghost predicate Distinct<T>(s: seq<T>)
  {
    forall a, b :: 0 <= a < b < |s| ==> s[a] != s[b]
  }

  /** list.remove: drops the first occurrence of `x`, if any. */
  function RemoveFirst<T(==)>(s: seq<T>, x: T): (r: seq<T>)
    ensures x in s ==> |r| == |s| - 1
    ensures x !in s ==> r == s
  {
    if s == [] then []
    else if s[0] == x then s[1..]
    else [s[0]] + RemoveFirst(s[1..], x)
  }

  /** `s` with every occurrence of `x` taken out, the rest in order. */
  function Without<T(==)>(s: seq<T>, x: T): (r: seq<T>)
    ensures x !in r && forall j :: 0 <= j < |r| ==> r[j] in s
    ensures x !in s ==> r == s
  {
    if s == [] then []
    else (if s[0] == x then [] else [s[0]]) + Without(s[1..], x)
  }

  /** Taking out every `x` leaves the other elements with their counts. */
  lemma {:induction false} WithoutCounts<T>(s: seq<T>, x: T)
    ensures multiset(Without(s, x)) == multiset(s)[x := 0]
  {
    if s != [] {
      assert s == [s[0]] + s[1..];
      WithoutCounts(s[1..], x);
    }
  }

  lemma {:induction false} WithoutRemoveFirst<T>(s: seq<T>, x: T)
    ensures Without(RemoveFirst(s, x), x) == Without(s, x)
  {
    if s != [] && s[0] != x {
      WithoutRemoveFirst(s[1..], x);
    }
  }

  lemma {:induction false} WithoutDistinct<T>(s: seq<T>, x: T)
    requires Distinct(s)
    ensures Distinct(Without(s, x))
  {
    if s != [] {
      assert Distinct(s[1..]);
      WithoutDistinct(s[1..], x);
      assert s[0] !in s[1..];
    }
  }

  /** Taking out every `x` and appending it once leaves exactly one `x`. */
  lemma WithoutThenAppend<T>(s: seq<T>, x: T)
    ensures multiset(Without(s, x) + [x]) == multiset(s)[x := 1]
    ensures Distinct(s) ==> Distinct(Without(s, x) + [x])
  {
    WithoutCounts(s, x);
    if Distinct(s) {
      WithoutDistinct(s, x);
    }
  }

  lemma RemoveFirstLast<T>(s: seq<T>, x: T)
    requires x !in s
    ensures RemoveFirst(s + [x], x) == s
  {
    if s != [] {
      assert (s + [x])[1..] == s[1..] + [x];
      RemoveFirstLast(s[1..], x);
    }
  }

  lemma {:induction false} DistinctCount<T>(s: seq<T>, y: T)
    requires Distinct(s)
    ensures multiset(s)[y] <= 1
  {
    if s != [] {
      assert s == [s[0]] + s[1..];
      assert Distinct(s[1..]);
      DistinctCount(s[1..], y);
      assert s[0] !in s[1..];
    }
  }

  /** The food flags of a path's vertices. */
  ghost function FoodOf(p: seq<Vertex>): (r: seq<bool>)
    ensures |r| == |p|
  {
    if p == [] then [] else [p[0].hasFood] + FoodOf(p[1..])
  }

  lemma {:induction false} FoodAt(p: seq<Vertex>, j: nat)
    requires j < |p|
    ensures FoodOf(p)[j] == p[j].hasFood
  {
    if j > 0 {
      FoodAt(p[1..], j - 1);
    }
  }

  /** For each hop of a path, whether it follows an edge. */
  ghost function LinkedOf(p: seq<Vertex>): (r: seq<bool>)
    requires |p| >= 1
    reads p
    ensures |r| == |p| - 1
  {
    if |p| == 1 then [] else [p[1] in p[0].edges] + LinkedOf(p[1..])
  }

  lemma {:induction false} LinkedAt(p: seq<Vertex>, j: nat)
    requires j < |p| - 1
    ensures LinkedOf(p)[j] == (p[j + 1] in p[j].edges)
  {
    if j > 0 {
      LinkedAt(p[1..], j - 1);
    }
  }

  /** The plain walk of is_reachable accepts `p`. */
  ghost predicate PathReachable(p: seq<Vertex>, k: int)
    reads p
  {
    |p| >= 1 && Walks.Reachable(FoodOf(p), LinkedOf(p), k)
  }

  /** The positions on `p` where the greedy walk places extra food. */
  ghost function PathPlacements(p: seq<Vertex>, k: int): seq<nat>
    requires |p| >= 1
  {
    Walks.Placements(FoodOf(p), k)
  }

  /** The budgeted walk accepts `p` with `x` extra foods. */
  ghost predicate Accepted(p: seq<Vertex>, k: int, x: int)
  {
    |p| >= 1 && |PathPlacements(p, k)| <= Walks.Budget(x)
  }

  /**
   * The vertices get_location and get_location2 record while walking `p`
   * (with food flags `food`) from position `i` with `stamina` left: the
   * vertex reached with no stamina is where the next extra food goes.
   */
  function LocationsFrom(p: seq<Vertex>, food: seq<bool>, k: int, i: nat, stamina: int): seq<Vertex>
    requires |food| == |p| && i < |p|
    decreases |p| - i
  {
    if i == |p| - 1 then []
    else
      var refilled := if stamina == 0 then k else stamina;
      var next := if food[i + 1] then k else refilled - 1;
      (if stamina == 0 then [p[i]] else []) + LocationsFrom(p, food, k, i + 1, next)
  }

  /** `r` lists the vertices of `p` at the positions `idx`, in order. */
  ghost predicate VerticesAt(p: seq<Vertex>, r: seq<Vertex>, idx: seq<nat>)
  {
    |r| == |idx| && forall j :: 0 <= j < |r| ==> idx[j] < |p| && r[j] == p[idx[j]]
  }

  lemma VerticesAtCons(p: seq<Vertex>, r: seq<Vertex>, idx: seq<nat>, m: nat)
    requires VerticesAt(p, r, idx) && m < |p|
    ensures VerticesAt(p, [p[m]] + r, [m] + idx)
  {
    forall j | 0 < j < |r| + 1
      ensures ([m] + idx)[j] < |p| && ([p[m]] + r)[j] == p[([m] + idx)[j]]
    {
      assert ([m] + idx)[j] == idx[j - 1] && ([p[m]] + r)[j] == r[j - 1];
    }
  }

  /** The recorded vertices are exactly the vertices at the greedy placement positions. */
  lemma {:induction false} LocationsFromPlaced(p: seq<Vertex>, food: seq<bool>, k: int, i: nat, stamina: int)
    requires |food| == |p| && i < |p|
    ensures VerticesAt(p, LocationsFrom(p, food, k, i, stamina), Walks.PlacementsFrom(food, k, i, stamina))
    decreases |p| - i
  {
    if i < |p| - 1 {
      var next := if food[i + 1] then k else (if stamina == 0 then k else stamina) - 1;
      LocationsFromPlaced(p, food, k, i + 1, next);
      Walks.PlacementsFromStep(food, k, i, stamina);
      var r', idx' := LocationsFrom(p, food, k, i + 1, next), Walks.PlacementsFrom(food, k, i + 1, next);
      if stamina == 0 {
        assert LocationsFrom(p, food, k, i, stamina) == [p[i]] + r';
        assert Walks.PlacementsFrom(food, k, i, stamina) == [i] + idx';
        VerticesAtCons(p, r', idx', i);
      } else {
        assert LocationsFrom(p, food, k, i, stamina) == r';
        assert Walks.PlacementsFrom(food, k, i, stamina) == idx';
      }
    }
  }

  /** One step of the recording walk, after the list `pre` already built. */
  lemma LocationsFromAdvance(pre: seq<Vertex>, p: seq<Vertex>, food: seq<bool>, k: int, i: nat, stamina: int)
    requires |food| == |p| && i < |p| - 1
    ensures pre + LocationsFrom(p, food, k, i, stamina)
            == (if stamina == 0 then pre + [p[i]] else pre)
               + LocationsFrom(p, food, k, i + 1, if food[i + 1] then k else (if stamina == 0 then k else stamina) - 1)
  {
  }

  /** The list of vertices get_location records for `p`. */
  ghost function PathLocations(p: seq<Vertex>, k: int): seq<Vertex>
  {
    if p == [] then [] else LocationsFrom(p, FoodOf(p), k, 0, k)
  }

  /** What is_reachable checks along a path whose hops are all edges: successive food anchors at most `k` hops apart. */
  ghost predicate FoodGapsWithin(q: seq<Vertex>, k: int)
  {
    |q| >= 1 && Walks.GapsWithin(FoodOf(q), k)
  }

  /** The first of the shortest lists of `lists` that satisfy `ok`; None when there is none. */
  ghost function ShortestWhere<T>(lists: seq<seq<T>>, ok: seq<T> -> bool): Option<seq<T>>
  {
    if lists == [] then None
    else
      var prev := ShortestWhere(lists[..|lists| - 1], ok);
      var last := lists[|lists| - 1];
      if ok(last) && (prev.None? || |prev.value| > |last|) then Some(last) else prev
  }

  lemma {:induction false} ShortestWhereNone<T>(lists: seq<seq<T>>, ok: seq<T> -> bool)
    ensures ShortestWhere(lists, ok).None? <==> forall i :: 0 <= i < |lists| ==> !ok(lists[i])
  {
    if lists != [] {
      var n := |lists| - 1;
      ShortestWhereNone(lists[..n], ok);
      assert forall i :: 0 <= i < n ==> lists[..n][i] == lists[i];
    }
  }

  lemma {:induction false} ShortestWhereIsFirstLeast<T>(lists: seq<seq<T>>, ok: seq<T> -> bool)
    requires ShortestWhere(lists, ok).Some?
    ensures exists j :: 0 <= j < |lists| && ShortestWhere(lists, ok).value == lists[j] && ok(lists[j])
              && (forall i :: 0 <= i < |lists| && ok(lists[i]) ==> |lists[j]| <= |lists[i]|)
              && (forall i :: 0 <= i < j && ok(lists[i]) ==> |lists[j]| < |lists[i]|)
  {
    var n := |lists| - 1;
    var init, last := lists[..n], lists[n];
    var prev := ShortestWhere(init, ok);
    if ok(last) && (prev.None? || |prev.value| > |last|) {
      if prev.Some? {
        ShortestWhereIsFirstLeast(init, ok);
      } else {
        ShortestWhereNone(init, ok);
      }
      forall i | 0 <= i < n && ok(lists[i])
        ensures |lists[n]| < |lists[i]|
      {
        assert lists[i] == init[i];
      }
      assert 0 <= n < |lists| && ShortestWhere(lists, ok).value == lists[n] && ok(lists[n])
        && (forall i :: 0 <= i < |lists| && ok(lists[i]) ==> |lists[n]| <= |lists[i]|)
        && (forall i :: 0 <= i < n && ok(lists[i]) ==> |lists[n]| < |lists[i]|);
    } else {
      ShortestWhereIsFirstLeast(init, ok);
      var j :| 0 <= j < n && prev.value == init[j] && ok(init[j])
               && (forall i :: 0 <= i < n && ok(init[i]) ==> |init[j]| <= |init[i]|)
               && (forall i :: 0 <= i < j && ok(init[i]) ==> |init[j]| < |init[i]|);
      assert lists[j] == init[j];
      forall i | 0 <= i < |lists| && ok(lists[i])
        ensures |lists[j]| <= |lists[i]|
      {
        if i < n {
          assert lists[i] == init[i];
        }
      }
      forall i | 0 <= i < j && ok(lists[i])
        ensures |lists[j]| < |lists[i]|
      {
        assert lists[i] == init[i];
      }
      assert 0 <= j < |lists| && ShortestWhere(lists, ok).value == lists[j] && ok(lists[j])
        && (forall i :: 0 <= i < |lists| && ok(lists[i]) ==> |lists[j]| <= |lists[i]|)
        && (forall i :: 0 <= i < j && ok(lists[i]) ==> |lists[j]| < |lists[i]|);
    }
  }

  /** The first of the shortest paths of `ps` whose food gaps are within `k`; None when there is none. */
  ghost function ShortestWithin(ps: seq<seq<Vertex>>, k: int): Option<seq<Vertex>>
  {
    ShortestWhere(ps, q => FoodGapsWithin(q, k))
  }

  /** The position of the first path of `ps` the budgeted walk accepts; |ps| when there is none. */
  ghost function FirstAccepted(ps: seq<seq<Vertex>>, k: int, x: int): (r: nat)
    ensures r <= |ps|
  {
    if ps == [] then 0 else if Accepted(ps[0], k, x) then 0 else 1 + FirstAccepted(ps[1..], k, x)
  }

  lemma {:induction false} FirstAcceptedIsFirst(ps: seq<seq<Vertex>>, k: int, x: int)
    ensures var r := FirstAccepted(ps, k, x);
            (forall i :: 0 <= i < r ==> !Accepted(ps[i], k, x)) && (r < |ps| ==> Accepted(ps[r], k, x))
  {
    if ps != [] && !Accepted(ps[0], k, x) {
      FirstAcceptedIsFirst(ps[1..], k, x);
      forall i | 1 <= i < FirstAccepted(ps, k, x)
        ensures !Accepted(ps[i], k, x)
      {
        assert ps[i] == ps[1..][i - 1];
      }
    }
  }

  /** The get_location2 list of each path of `ps`, in order. */
  ghost function LocationsEach(ps: seq<seq<Vertex>>, k: int): (r: seq<seq<Vertex>>)
    ensures |r| == |ps|
  {
    if ps == [] then [] else LocationsEach(ps[..|ps| - 1], k) + [PathLocations(ps[|ps| - 1], k)]
  }

  lemma {:induction false} LocationsEachAt(ps: seq<seq<Vertex>>, k: int, j: nat)
    requires j < |ps|
    ensures LocationsEach(ps, k)[j] == PathLocations(ps[j], k)
  {
    if j < |ps| - 1 {
      LocationsEachAt(ps[..|ps| - 1], k, j);
    }
  }

  lemma LocationsEachSnoc(ps: seq<seq<Vertex>>, n: nat, k: int)
    requires n < |ps|
    ensures LocationsEach(ps[..n + 1], k) == LocationsEach(ps[..n], k) + [PathLocations(ps[n], k)]
  {
    assert ps[..n + 1][..n] == ps[..n];
  }

  /** Every list qualifies. */
  ghost predicate Always<T>(q: seq<T>)
  {
    true
  }

  /** The first of the shortest lists of `lists`; None when there are none. */
  ghost function Shortest<T>(lists: seq<seq<T>>): Option<seq<T>>
  {
    ShortestWhere(lists, Always)
  }

  lemma ShortestSnoc<T>(lists: seq<seq<T>>, last: seq<T>)
    ensures Shortest(lists + [last])
            == if Shortest(lists).None? || |Shortest(lists).value| > |last| then Some(last) else Shortest(lists)
  {
    assert (lists + [last])[..|lists|] == lists;
  }

  /** One more path: its get_location2 list replaces the shortest so far only when strictly shorter. */
  lemma SmallestStep(ps: seq<seq<Vertex>>, n: nat, k: int)
    requires n < |ps|
    ensures var prev, last := Shortest(LocationsEach(ps[..n], k)), PathLocations(ps[n], k);
            Shortest(LocationsEach(ps[..n + 1], k))
            == if prev.None? || |prev.value| > |last| then Some(last) else prev
  {
    LocationsEachSnoc(ps, n, k);
    ShortestSnoc(LocationsEach(ps[..n], k), PathLocations(ps[n], k));
  }

  lemma ShortestIsFirstLeast<T>(lists: seq<seq<T>>)
    ensures Shortest(lists).None? <==> lists == []
    ensures Shortest(lists).Some? ==>
              exists j :: 0 <= j < |lists| && Shortest(lists).value == lists[j]
                && (forall i :: 0 <= i < |lists| ==> |lists[j]| <= |lists[i]|)
                && (forall i :: 0 <= i < j ==> |lists[j]| < |lists[i]|)
  {
    ShortestWhereNone(lists, Always);
    if lists != [] {
      assert Always(lists[0]);
      ShortestWhereIsFirstLeast(lists, Always);
    }
  }


  /** get_location records one vertex per extra food, the one at each greedy placement. */
  lemma PathLocationsPlaced(p: seq<Vertex>, k: int)
    requires |p| >= 1
    ensures var r := PathLocations(p, k);
            var idx := PathPlacements(p, k);
            |r| == |idx| && forall j :: 0 <= j < |r| ==> idx[j] < |p| && r[j] == p[idx[j]]
  {
    LocationsFromPlaced(p, FoodOf(p), k, 0, k);
  }
  /**
   * `q` carries on from the search stack `stem` to `t` in the graph with
   * vertex list `vs` and neighbour sets `adj`: it starts with `stem`, ends at
   * `t`, repeats no vertex, and every vertex after the stack is in `vs` and a
   * neighbour of the one before it.
   */
  ghost predicate Continues(vs: seq<Vertex>, adj: map<Vertex, set<Vertex>>, stem: seq<Vertex>, t: Vertex?, older q: seq<Vertex>)
  {
    0 < |stem| <= |q| && q[..|stem|] == stem && q[|q| - 1] == t && Distinct(q)
    && forall j :: |stem| <= j < |q| ==> q[j] in vs && Hop(adj, q[j - 1], q[j])
  }

  /** `b` is a neighbour of `a` in `adj`. */
  ghost predicate Hop(adj: map<Vertex, set<Vertex>>, a: Vertex, b: Vertex)
  {
    a in adj && b in adj[a]
  }

  /** A stack that already ends at `t` has itself as its only continuation. */
  lemma ContinuesAtTarget(vs: seq<Vertex>, adj: map<Vertex, set<Vertex>>, stem: seq<Vertex>, t: Vertex, q: seq<Vertex>)
    requires 0 < |stem| && stem[|stem| - 1] == t && Distinct(stem)
    ensures Continues(vs, adj, stem, t, q) <==> q == stem
  {
  }

  /** A continuation of a stack not yet at `t` goes on past the stack, to a fresh neighbour. */
  lemma ContinuesLonger(vs: seq<Vertex>, adj: map<Vertex, set<Vertex>>, stem: seq<Vertex>, t: Vertex?, q: seq<Vertex>)
    requires 0 < |stem| && stem[|stem| - 1] != t && Continues(vs, adj, stem, t, q)
    ensures |stem| < |q| && q[|stem|] in vs && q[|stem|] !in stem
    ensures stem[|stem| - 1] in adj && q[|stem|] in adj[stem[|stem| - 1]]
  {
    var n := |stem|;
    assert q[n - 1] == stem[n - 1];
  }

  /**
   * From a stack ending at `s` other than `t`, the continuations through a
   * neighbour `i` of `s` that is a graph vertex off the stack are exactly the
   * continuations of the stack extended by `i`.
   */
  lemma ContinuesStep(vs: seq<Vertex>, adj: map<Vertex, set<Vertex>>, stem: seq<Vertex>, t: Vertex?, i: Vertex, q: seq<Vertex>)
    requires 0 < |stem| && stem[|stem| - 1] != t
    requires stem[|stem| - 1] in adj && i in adj[stem[|stem| - 1]] && i in vs && i !in stem
    ensures Continues(vs, adj, stem + [i], t, q)
            <==> Continues(vs, adj, stem, t, q) && |stem| < |q| && q[|stem|] == i
  {
    var n := |stem|;
    if Continues(vs, adj, stem + [i], t, q) {
      assert q[..n] == q[..n + 1][..n];
    }
    if Continues(vs, adj, stem, t, q) && n < |q| && q[n] == i {
      assert q[..n + 1] == q[..n] + [q[n]];
    }
  }

  /** Two lists without repetitions and without a common element join into one without repetitions. */
  lemma DistinctAppend<T>(a: seq<T>, b: seq<T>)
    requires Distinct(a) && Distinct(b)
    requires forall x :: x in a ==> x !in b
    ensures Distinct(a + b)
  {
    forall x, y | 0 <= x < y < |a + b|
      ensures (a + b)[x] != (a + b)[y]
    {
      if x < |a| <= y {
        assert (a + b)[x] in a && (a + b)[y] in b;
      }
    }
  }

  /** A value occurs at only one position of a list without repetitions. */
  lemma DistinctAt<T>(s: seq<T>, i: nat, j: nat)
    requires Distinct(s) && i < |s| && j < |s| && s[i] == s[j]
    ensures i == j
  {
  }

  /**
   * The paths dfs recorded before searching below the neighbour `i` all
   * avoid `rest` after the stack, while those it records below `i` go
   * through `i`, which is in `rest`: no path is recorded in both.
   */
  lemma SearchedApart(vs: seq<Vertex>, adj: map<Vertex, set<Vertex>>, stem: seq<Vertex>, t: Vertex?, i: Vertex,
                      rest: set<Vertex>, older: seq<seq<Vertex>>, added: seq<seq<Vertex>>)
    requires i in rest
    requires Members(older) == ContsAvoiding(vs, adj, stem, t, rest)
    requires Members(added) == Conts(vs, adj, stem + [i], t)
    ensures forall q :: q in older ==> q !in added
  {
    forall q | q in added
      ensures |stem| < |q| && q[|stem|] == i
    {
      assert q in Members(added);
      assert q[..|stem| + 1] == stem + [i];
    }
    forall q | q in older
      ensures |stem| < |q| && q[|stem|] != i
    {
      assert q in Members(older);
    }
  }

  /** add_vertex's loop: remove the first `x` while one is left. */
  method RemoveAll<T(==)>(s: seq<T>, x: T) returns (r: seq<T>)
    ensures r == Without(s, x)
  {
    r := s;
    while x in r
      invariant Without(r, x) == Without(s, x)
      decreases |r|
    {
      WithoutRemoveFirst(r, x);
      r := RemoveFirst(r, x);
    }
  }

  /** Removing every `v` and appending it once keeps the same members. */
  lemma SameMembers(olds: seq<Vertex>, news: seq<Vertex>, v: Vertex)
    requires v in olds && news == Without(olds, v) + [v]
    ensures forall b :: b in news <==> b in olds
    ensures SymmetricAmong(news) == SymmetricAmong(olds) && ClosedAmong(news) == ClosedAmong(olds)
  {
    WithoutThenAppend(olds, v);
    forall b
      ensures b in news <==> b in olds
    {
      assert b in news <==> multiset(news)[b] > 0;
      assert b in olds <==> multiset(olds)[b] > 0;
    }
  }

  /** Among the vertices of `vs`, being neighbours is symmetric. */
  ghost predicate SymmetricAmong(vs: seq<Vertex>)
    reads vs
  {
    forall a, b :: a in vs && b in vs && b in a.edges ==> a in b.edges
  }

  /** No vertex of `vs` has a neighbour outside `vs`. */
  ghost predicate ClosedAmong(vs: seq<Vertex>)
    reads vs
  {
    forall a, b :: a in vs && b in a.edges ==> b in vs
  }

  /**
   * Appending a vertex without neighbours keeps neighbours symmetric and
   * inside the maze.
   */
  lemma AppendKeepsNeighbours(vs: seq<Vertex>, v: Vertex)
    ensures SymmetricAmong(vs) && ClosedAmong(vs) && v.edges == {}
            ==> SymmetricAmong(vs + [v]) && ClosedAmong(vs + [v])
  {
  }

  /** All continuations of `stem` to `t`. */
  ghost function Conts(vs: seq<Vertex>, adj: map<Vertex, set<Vertex>>, stem: seq<Vertex>, t: Vertex?): iset<seq<Vertex>>
  {
    iset q | Continues(vs, adj, stem, t, q)
  }

  /** The continuations of `stem` whose next vertex is not in `rest`. */
  ghost function ContsAvoiding(vs: seq<Vertex>, adj: map<Vertex, set<Vertex>>, stem: seq<Vertex>, t: Vertex?,
                               rest: set<Vertex>): iset<seq<Vertex>>
  {
    iset q | Continues(vs, adj, stem, t, q) && |stem| < |q| && q[|stem|] !in rest
  }

  /** The paths listed in `found`. */
  ghost function Members(found: seq<seq<Vertex>>): iset<seq<Vertex>>
  {
    iset q | q in found
  }

  lemma MembersAppend(a: seq<seq<Vertex>>, b: seq<seq<Vertex>>)
    ensures Members(a + b) == Members(a) + Members(b)
  {
  }

  /** Searching below an eligible neighbour `i` adds exactly the continuations through `i`. */
  lemma ContsAvoidingStep(vs: seq<Vertex>, adj: map<Vertex, set<Vertex>>, stem: seq<Vertex>, t: Vertex?, i: Vertex, rest: set<Vertex>)
    requires 0 < |stem| && stem[|stem| - 1] != t
    requires stem[|stem| - 1] in adj && i in adj[stem[|stem| - 1]] && i in vs && i !in stem
    ensures ContsAvoiding(vs, adj, stem, t, rest - {i}) == ContsAvoiding(vs, adj, stem, t, rest) + Conts(vs, adj, stem + [i], t)
  {
    forall q
      ensures q in ContsAvoiding(vs, adj, stem, t, rest - {i})
              <==> q in ContsAvoiding(vs, adj, stem, t, rest) + Conts(vs, adj, stem + [i], t)
    {
      ContinuesStep(vs, adj, stem, t, i, q);
    }
  }

  /** A neighbour the search skips (not a graph vertex, or already on the stack) starts no continuation. */
  lemma ContsAvoidingSkip(vs: seq<Vertex>, adj: map<Vertex, set<Vertex>>, stem: seq<Vertex>, t: Vertex?, i: Vertex, rest: set<Vertex>)
    requires 0 < |stem| && stem[|stem| - 1] != t
    requires i !in vs || i in stem
    ensures ContsAvoiding(vs, adj, stem, t, rest - {i}) == ContsAvoiding(vs, adj, stem, t, rest)
  {
    forall q | Continues(vs, adj, stem, t, q)
      ensures q[|stem|] != i
    {
      ContinuesLonger(vs, adj, stem, t, q);
    }
  }

  /**
   * Avoiding every neighbour leaves no continuation; avoiding none leaves
   * them all.
   */
  lemma ContsAvoidingEnds(vs: seq<Vertex>, adj: map<Vertex, set<Vertex>>, stem: seq<Vertex>, t: Vertex?)
    requires 0 < |stem| && stem[|stem| - 1] != t && stem[|stem| - 1] in adj
    ensures ContsAvoiding(vs, adj, stem, t, adj[stem[|stem| - 1]]) == iset{}
    ensures ContsAvoiding(vs, adj, stem, t, {}) == Conts(vs, adj, stem, t)
  {
    forall q | Continues(vs, adj, stem, t, q)
      ensures |stem| < |q| && q[|stem|] in adj[stem[|stem| - 1]]
    {
      ContinuesLonger(vs, adj, stem, t, q);
    }
  }

  /** A stack already at `t` is its own only continuation. */
  lemma ContsAtTarget(vs: seq<Vertex>, adj: map<Vertex, set<Vertex>>, stem: seq<Vertex>, t: Vertex)
    requires 0 < |stem| && stem[|stem| - 1] == t && Distinct(stem)
    ensures Conts(vs, adj, stem, t) == iset{stem}
  {
    forall q
      ensures q in Conts(vs, adj, stem, t) <==> q == stem
    {
      ContinuesAtTarget(vs, adj, stem, t, q);
    }
  }

  /** The working lists of one depth-first search: `path`, `visited` and `simple_paths`. */
  class SearchBuffers {
    var path: seq<Vertex>
    var visited: seq<Vertex>
    var simplePaths: seq<seq<Vertex>>

    constructor ()
      ensures path == [] && visited == [] && simplePaths == []
    {
      path, visited, simplePaths := [], [], [];
    }
  }

  class QuokkaMaze {
    var vertices: seq<Vertex>

    constructor ()
      ensures vertices == []
    {
      vertices := [];
    }

    /** No vertex is in the maze twice. */
    ghost predicate Unique()
      reads this
    {
      Distinct(vertices)
    }

    /** Among the maze's vertices, being neighbours is symmetric. */
    ghost predicate Symmetric()
      reads this, vertices
    {
      SymmetricAmong(vertices)
    }

    /** No maze vertex has a neighbour outside the maze. */
    ghost predicate Closed()
      reads this, vertices
    {
      ClosedAmong(vertices)
    }

    /**
     * add_vertex: a missing vertex is appended. A vertex already present has
     * every occurrence removed and is appended once more, and the call
     * reports failure.
     */
    method AddVertex(v: Vertex?) returns (ok: bool)
      modifies this
      ensures ok <==> v != null && v !in old(vertices)
      ensures v == null ==> vertices == old(vertices)
      ensures v != null ==> vertices == Without<Vertex>(old(vertices), v) + [v]
      ensures v != null ==> multiset(vertices) == multiset(old(vertices))[v := 1]
      ensures old(Unique()) ==> Unique()
      ensures old(Symmetric() && Closed()) && (v == null || v in old(vertices) || v.edges == {})
              ==> Symmetric() && Closed()
    {
      if v == null {
        return false;
      }
      var w: Vertex := v;
      WithoutThenAppend(vertices, w);
      if w !in vertices {
        AppendKeepsNeighbours(vertices, w);
        vertices := vertices + [w];
        return true;
      }
      var rest := RemoveAll(vertices, w);
      SameMembers(vertices, rest + [w], w);
      vertices := rest + [w];
      return false;
    }

    /**
     * fix_edge: two distinct-or-equal member vertices become neighbours of
     * each other, unless they already are in both directions.
     */
    method FixEdge(u: Vertex?, v: Vertex?) returns (ok: bool)
      modifies u, v
      ensures ok <==> u != null && v != null && u in vertices && v in vertices
                      && !(v in old(u.edges) && u in old(v.edges))
      ensures ok ==> u != null && v != null && u.edges == old(u.edges) + {v} && v.edges == old(v.edges) + {u}
      ensures !ok && u != null ==> u.edges == old(u.edges)
      ensures !ok && v != null ==> v.edges == old(v.edges)
      ensures old(Symmetric()) ==> Symmetric()
      ensures old(Closed()) ==> Closed()
    {
      var flag := 0;
      if v !in vertices {
        flag := 1;
      }
      if u !in vertices {
        flag := 1;
      }
      if u == null {
        flag := 1;
      }
      if v == null {
        flag := 1;
      }
      if flag == 1 {
        return false;
      }
      if v in u.edges && u in v.edges {
        return false;
      }
      v.RmEdge(u);
      u.RmEdge(v);
      v.AddEdge(u);
      u.AddEdge(v);
      return true;
    }

    /**
     * block_edge: two member vertices stop being neighbours, provided at
     * least one direction of the edge is present.
     */
    method BlockEdge(u: Vertex?, v: Vertex?) returns (ok: bool)
      modifies u, v
      ensures ok <==> u != null && v != null && u in vertices && v in vertices
                      && (v in old(u.edges) || u in old(v.edges))
      ensures ok ==> u != null && v != null && u.edges == old(u.edges) - {v} && v.edges == old(v.edges) - {u}
      ensures !ok && u != null ==> u.edges == old(u.edges)
      ensures !ok && v != null ==> v.edges == old(v.edges)
      ensures old(Symmetric()) ==> Symmetric()
      ensures old(Closed()) ==> Closed()
    {
      // A null endpoint is never a member, so the source's later null test cannot fire.
      if u !in vertices || v !in vertices {
        return false;
      }
      if v !in u.edges && u !in v.edges {
        return false;
      }
      if v in u.edges {
        u.RmEdge(v);
      }
      if u in v.edges {
        v.RmEdge(u);
      }
      return true;
    }

    /** The neighbour sets of the maze's vertices and of the start `s`. */
    ghost function EdgeMap(s: Vertex): (r: map<Vertex, set<Vertex>>)
      reads this, vertices, s
      ensures s in r && r[s] == s.edges
      ensures forall x :: x in vertices ==> x in r && r[x] == x.edges
    {
      map x | x in vertices + [s] :: x.edges
    }

    /** The simple paths from `s` to `t`, as dfs enumerates them. */
    ghost function SimplePaths(s: Vertex, t: Vertex?): iset<seq<Vertex>>
      reads this, vertices, s
    {
      Conts(vertices, EdgeMap(s), [s], t)
    }

    /** The maze vertices not on the search stack `p`: what bounds the search below it. */
    ghost function Unvisited(p: seq<Vertex>): set<Vertex>
      reads this
    {
      set x | x in vertices && x !in p
    }

    lemma UnvisitedPush(p: seq<Vertex>, s: Vertex)
      ensures Unvisited(p + [s]) <= Unvisited(p)
      ensures s in vertices && s !in p ==> Unvisited(p + [s]) < Unvisited(p)
      ensures s !in vertices ==> Unvisited(p + [s]) == Unvisited(p)
    {
      if s in vertices && s !in p {
        assert s in Unvisited(p) - Unvisited(p + [s]);
      }
    }

    /**
     * dfs: with `s` pushed onto the search stack `path` (and `visited`, which
     * holds the same vertices), records a copy of every continuation of the
     * stack to `t`, then pops `s` again. `adj` is the neighbour sets, which
     * the search does not change.
     */
    method Dfs(s: Vertex, t: Vertex?, buf: SearchBuffers, ghost adj: map<Vertex, set<Vertex>>)
      requires buf.visited == buf.path && s !in buf.path && Distinct(buf.path)
      requires s in adj && adj[s] == s.edges
      requires forall x :: x in vertices ==> x in adj && adj[x] == x.edges
      modifies buf
      ensures buf.path == old(buf.path) && buf.visited == old(buf.visited)
      ensures |old(buf.simplePaths)| <= |buf.simplePaths|
      ensures buf.simplePaths[..|old(buf.simplePaths)|] == old(buf.simplePaths)
      ensures Members(buf.simplePaths[|old(buf.simplePaths)|..]) == Conts(vertices, adj, old(buf.path) + [s], t)
      ensures Distinct(buf.simplePaths[|old(buf.simplePaths)|..])
      decreases Unvisited(buf.path), if s in vertices then 0 else 1
    {
      ghost var stem := buf.path + [s];
      ghost var n0 := |buf.simplePaths|;
      assert stem[|stem| - 1] == s && Distinct(stem);
      buf.visited := buf.visited + [s];
      buf.path := buf.path + [s];
      if s == t {
        var a := [];
        for j := 0 to |buf.path|
          invariant a == buf.path[..j]
        {
          a := a + [buf.path[j]];
        }
        assert a == stem;
        buf.simplePaths := buf.simplePaths + [a];
        RemoveFirstLast(old(buf.visited), s);
        buf.visited := RemoveFirst(buf.visited, s);
        buf.path := buf.path[..|buf.path| - 1];
        assert buf.simplePaths[n0..] == [stem];
        ContsAtTarget(vertices, adj, stem, s);
        return;
      }
      var rest := s.edges;
      ContsAvoidingEnds(vertices, adj, stem, t);
      UnvisitedPush(old(buf.path), s);
      while rest != {}
        invariant buf.path == stem && buf.visited == stem
        invariant n0 <= |buf.simplePaths| && buf.simplePaths[..n0] == old(buf.simplePaths)
        invariant Members(buf.simplePaths[n0..]) == ContsAvoiding(vertices, adj, stem, t, rest)
        invariant Distinct(buf.simplePaths[n0..])
        decreases rest
      {
        var i :| i in rest;
        if i in vertices && i != s && i !in buf.visited {
          ghost var before := buf.simplePaths;
          Dfs(i, t, buf, adj);
          ghost var added := buf.simplePaths[|before|..];
          assert buf.simplePaths[n0..] == before[n0..] + added;
          MembersAppend(before[n0..], added);
          SearchedApart(vertices, adj, stem, t, i, rest, before[n0..], added);
          DistinctAppend(before[n0..], added);
          ContsAvoidingStep(vertices, adj, stem, t, i, rest);
        } else {
          ContsAvoidingSkip(vertices, adj, stem, t, i, rest);
        }
        rest := rest - {i};
      }
      buf.path := buf.path[..|buf.path| - 1];
      RemoveFirstLast(old(buf.visited), s);
      buf.visited := RemoveFirst(buf.visited, s);
    }

    /** is_reachable: the plain walk along `path` with hop bound `k`. */
    method IsReachable(path: seq<Vertex>, k: int) returns (r: bool)
      requires |path| >= 1
      ensures r == PathReachable(path, k)
    {
      ghost var food, linked := FoodOf(path), LinkedOf(path);
      var length := |path|;
      var index := 0;
      var stamina := k;
      var current := path[0];
      while true
        invariant 0 <= index < length && current == path[index]
        invariant Walks.Reachable(food, linked, k) == Walks.ReachFrom(food, linked, k, index, stamina)
        invariant k >= 0 ==> 0 <= stamina <= k
        decreases length - index
      {
        if index == length - 1 {
          return true;
        }
        if stamina == 0 {
          return false;
        }
        stamina := stamina - 1;
        index := index + 1;
        LinkedAt(path, index - 1);
        FoodAt(path, index);
        if path[index] in current.edges {
          current := path[index];
        } else {
          return false;
        }
        if current.hasFood {
          stamina := k;
        }
      }
    }

    /**
     * is_reachable_with_extra_food: the walk that, when the stamina runs out,
     * spends one of `x` extra foods at the current vertex. It accepts exactly
     * when the greedy placement needs no more than the budget.
     */
    method IsReachableWithExtraFood(path: seq<Vertex>, k: int, x: int) returns (ok: bool)
      requires |path| >= 1
      ensures ok <==> |PathPlacements(path, k)| <= Walks.Budget(x)
    {
      ghost var food := FoodOf(path);
      ghost var placed: nat := 0;
      var length := |path|;
      var foodLeft := x;
      var stamina := k;
      var index := 0;
      while true
        invariant 0 <= index < length
        invariant foodLeft == x - placed && placed <= Walks.Budget(x)
        invariant |Walks.Placements(food, k)| == placed + |Walks.PlacementsFrom(food, k, index, stamina)|
        invariant k >= 1 ==> 0 <= stamina <= k
        decreases length - index
      {
        if index == length - 1 {
          return true;
        }
        Walks.PlacementsFromStep(food, k, index, stamina);
        if stamina == 0 {
          if foodLeft > 0 {
            stamina := k;
            foodLeft := foodLeft - 1;
            placed := placed + 1;
          } else {
            return false;
          }
        }
        stamina := stamina - 1;
        index := index + 1;
        var current := path[index];
        FoodAt(path, index);
        if current.hasFood {
          stamina := k;
        }
      }
    }

    /**
     * get_location: the budgeted walk that also appends each vertex where it
     * places food to `found`. On rejection the list is emptied.
     */
    method GetLocation(path: seq<Vertex>, k: int, x: int, found: seq<Vertex>) returns (ok: bool, locations: seq<Vertex>)
      requires |path| >= 1
      ensures ok <==> |PathPlacements(path, k)| <= Walks.Budget(x)
      ensures ok ==> locations == found + PathLocations(path, k)
      ensures !ok ==> locations == []
    {
      ghost var food := FoodOf(path);
      ghost var placed: nat := 0;
      locations := found;
      var length := |path|;
      var foodLeft := x;
      var stamina := k;
      var index := 0;
      var current := path[0];
      while true
        invariant 0 <= index < length && current == path[index]
        invariant foodLeft == x - placed && placed <= Walks.Budget(x)
        invariant |Walks.Placements(food, k)| == placed + |Walks.PlacementsFrom(food, k, index, stamina)|
        invariant found + LocationsFrom(path, food, k, 0, k) == locations + LocationsFrom(path, food, k, index, stamina)
        invariant k >= 1 ==> 0 <= stamina <= k
        decreases length - index
      {
        if index == length - 1 {
          return true, locations;
        }
        Walks.PlacementsFromStep(food, k, index, stamina);
        LocationsFromAdvance(locations, path, food, k, index, stamina);
        if stamina == 0 {
          if foodLeft > 0 {
            stamina := k;
            foodLeft := foodLeft - 1;
            placed := placed + 1;
            locations := locations + [current];
          } else {
            return false, [];
          }
        }
        stamina := stamina - 1;
        index := index + 1;
        current := path[index];
        FoodAt(path, index);
        if current.hasFood {
          stamina := k;
        }
      }
    }

    /** get_location2: the walk with unlimited extra food, appending each placement to `found`. */
    method GetLocation2(path: seq<Vertex>, k: int, found: seq<Vertex>) returns (locations: seq<Vertex>)
      requires |path| >= 1
      ensures locations == found + PathLocations(path, k)
    {
      ghost var food := FoodOf(path);
      locations := found;
      var length := |path|;
      var stamina := k;
      var index := 0;
      var current := path[0];
      while true
        invariant 0 <= index < length && current == path[index]
        invariant found + LocationsFrom(path, food, k, 0, k) == locations + LocationsFrom(path, food, k, index, stamina)
        decreases length - index
      {
        if index == length - 1 {
          return locations;
        }
        LocationsFromAdvance(locations, path, food, k, index, stamina);
        if stamina == 0 {
          locations := locations + [current];
          stamina := k;
        }
        stamina := stamina - 1;
        index := index + 1;
        current := path[index];
        FoodAt(path, index);
        if current.hasFood {
          stamina := k;
        }
      }
    }

    /** What a simple path from `s` to `t` gives the walks to work with. */
    lemma SimplePathShape(s: Vertex, t: Vertex?, q: seq<Vertex>)
      requires q in SimplePaths(s, t)
      ensures |q| >= 1 && q[0] == s && q[|q| - 1] == t && Distinct(q)
      ensures forall j :: 1 <= j < |q| ==> q[j] in vertices
      ensures Walks.AllLinked(LinkedOf(q))
    {
      assert q[..1] == [s];
      forall j | 0 <= j < |q| - 1
        ensures LinkedOf(q)[j]
      {
        LinkedAt(q, j);
        assert Hop(EdgeMap(s), q[j], q[j + 1]);
        if j > 0 {
          assert q[j] in vertices;
        }
      }
    }

    /** find_path's sanity filter passes every simple path from a maze vertex: each vertex is in the maze and occurs once. */
    lemma SimplePathPassesFilter(s: Vertex, t: Vertex?, q: seq<Vertex>)
      requires q in SimplePaths(s, t) && s in vertices
      ensures forall m :: 0 <= m < |q| ==> q[m] in vertices && multiset(q)[q[m]] <= 1
    {
      SimplePathShape(s, t, q);
      forall m | 0 <= m < |q|
        ensures q[m] in vertices && multiset(q)[q[m]] <= 1
      {
        DistinctCount(q, q[m]);
      }
    }

    /**
     * The closed form of is_reachable: for k >= 0 it accepts exactly when
     * every hop follows an edge and successive anchors (the start, each food
     * vertex, the end) are at most k hops apart.
     */
    lemma PathReachableIffGaps(p: seq<Vertex>, k: int)
      requires |p| >= 1 && k >= 0
      ensures PathReachable(p, k) <==> Walks.AllLinked(LinkedOf(p)) && Walks.GapsWithin(FoodOf(p), k)
    {
      Walks.ReachableIffGaps(FoodOf(p), LinkedOf(p), k);
    }

    /**
     * Along a simple path every hop follows an edge, so is_reachable only
     * checks the food gaps: successive anchors at most k hops apart.
     */
    lemma SimplePathReachable(s: Vertex, t: Vertex?, q: seq<Vertex>, k: int)
      requires q in SimplePaths(s, t) && k >= 0
      ensures PathReachable(q, k) <==> Walks.GapsWithin(FoodOf(q), k)
    {
      SimplePathShape(s, t, q);
      PathReachableIffGaps(q, k);
    }

    /**
     * For k >= 1, food at the vertices get_location records makes the plain
     * walk accept the path, and no covering food assignment that makes it
     * accept adds fewer foods.
     */
    lemma SimplePathLocations(s: Vertex, t: Vertex?, q: seq<Vertex>, k: int)
      requires q in SimplePaths(s, t) && k >= 1
      ensures Walks.Reachable(Walks.WithFood(FoodOf(q), PathPlacements(q, k)), LinkedOf(q), k)
      ensures forall more :: Walks.Covers(FoodOf(q), more) && Walks.Reachable(more, LinkedOf(q), k)
                ==> |PathLocations(q, k)| <= Walks.AddedFrom(FoodOf(q), more, 0)
    {
      SimplePathShape(s, t, q);
      Walks.PlacementsSound(FoodOf(q), LinkedOf(q), k);
      PathLocationsPlaced(q, k);
      forall more | Walks.Covers(FoodOf(q), more) && Walks.Reachable(more, LinkedOf(q), k)
        ensures |PathLocations(q, k)| <= Walks.AddedFrom(FoodOf(q), more, 0)
      {
        Walks.PlacementsOptimal(FoodOf(q), LinkedOf(q), more, k);
      }
    }

    /**
     * What the budgeted walk decides for a simple path, for k >= 1: when it
     * accepts, its own placement of at most x foods makes is_reachable
     * accept; when some way of adding at most x foods makes is_reachable
     * accept, it accepts.
     */
    lemma SimplePathAccepted(s: Vertex, t: Vertex?, q: seq<Vertex>, k: int, x: int)
      requires q in SimplePaths(s, t) && k >= 1 && x >= 0
      ensures Accepted(q, k, x) ==>
                (|PathPlacements(q, k)| <= x
                 && Walks.Reachable(Walks.WithFood(FoodOf(q), PathPlacements(q, k)), LinkedOf(q), k))
      ensures forall more ::
                (Walks.Covers(FoodOf(q), more) && Walks.Reachable(more, LinkedOf(q), k)
                 && Walks.AddedFrom(FoodOf(q), more, 0) <= x) ==> Accepted(q, k, x)
    {
      SimplePathShape(s, t, q);
      Walks.AcceptsWithinFixedExact(FoodOf(q), LinkedOf(q), k, x);
    }

    /**
     * What find_path's result means, given the enumerated simple paths: None
     * exactly when is_reachable accepts no simple path from `s` to `t`;
     * otherwise an accepted simple path no longer than any other accepted one.
     */
    lemma {:induction false} ShortestWithinMeaning(s: Vertex, t: Vertex?, ps: seq<seq<Vertex>>, k: int)
      requires Members(ps) == SimplePaths(s, t) && k >= 0
      ensures ShortestWithin(ps, k).None? <==> forall q :: q in SimplePaths(s, t) ==> !PathReachable(q, k)
      ensures ShortestWithin(ps, k).Some? ==>
                var p := ShortestWithin(ps, k).value;
                p in SimplePaths(s, t) && PathReachable(p, k)
                && forall q :: q in SimplePaths(s, t) && PathReachable(q, k) ==> |p| <= |q|
    {
      ShortestWhereNone(ps, q => FoodGapsWithin(q, k));
      if ShortestWithin(ps, k).Some? {
        ShortestWhereIsFirstLeast(ps, q => FoodGapsWithin(q, k));
      }
      forall q | q in SimplePaths(s, t)
        ensures q in ps && (PathReachable(q, k) <==> FoodGapsWithin(q, k))
      {
        assert q in Members(ps);
        SimplePathReachable(s, t, q, k);
        SimplePathShape(s, t, q);
      }
      if ShortestWithin(ps, k).Some? {
        var p := ShortestWithin(ps, k).value;
        assert p in Members(ps);
      }
    }

    /**
     * What the fixed minimize_extra_food computes, for k >= 1: the list of
     * some simple path from `s` to `t`, and no way of covering the food of
     * any simple path that makes is_reachable accept it adds fewer foods.
     * None exactly when there is no simple path.
     */
    lemma {:induction false} SmallestLocationsMeaning(s: Vertex, t: Vertex?, ps: seq<seq<Vertex>>, k: int)
      requires Members(ps) == SimplePaths(s, t) && k >= 1
      ensures Shortest(LocationsEach(ps, k)).None? <==> forall q :: q !in SimplePaths(s, t)
      ensures Shortest(LocationsEach(ps, k)).Some? ==>
                var r := Shortest(LocationsEach(ps, k)).value;
                (exists p :: p in SimplePaths(s, t) && r == PathLocations(p, k))
                && forall q, more :: q in SimplePaths(s, t) && Walks.Covers(FoodOf(q), more)
                                     && Walks.Reachable(more, LinkedOf(q), k)
                                     ==> |r| <= Walks.AddedFrom(FoodOf(q), more, 0)
    {
      var each := LocationsEach(ps, k);
      ShortestIsFirstLeast(each);
      if ps == [] {
        forall q ensures q !in SimplePaths(s, t) {
          assert q !in Members(ps);
        }
      } else {
        var r := Shortest(each).value;
        var j :| 0 <= j < |each| && r == each[j] && forall i :: 0 <= i < |each| ==> |each[j]| <= |each[i]|;
        LocationsEachAt(ps, k, j);
        assert ps[j] in Members(ps);
        forall q, more | q in SimplePaths(s, t) && Walks.Covers(FoodOf(q), more) && Walks.Reachable(more, LinkedOf(q), k)
          ensures |r| <= Walks.AddedFrom(FoodOf(q), more, 0)
        {
          assert q in Members(ps);
          var i :| 0 <= i < |ps| && ps[i] == q;
          LocationsEachAt(ps, k, i);
          SimplePathLocations(s, t, q, k);
        }
      }
    }

    /** The dfs call each query makes, on fresh empty `path`, `visited` and `simple_paths` lists. */
    method Search(s: Vertex, t: Vertex?) returns (paths: seq<seq<Vertex>>)
      ensures Members(paths) == SimplePaths(s, t) && Distinct(paths)
      ensures forall q :: q in paths ==> |q| >= 1
    {
      var buf := new SearchBuffers();
      Dfs(s, t, buf, EdgeMap(s));
      paths := buf.simplePaths;
      assert buf.simplePaths[0..] == paths && [] + [s] == [s];
      forall q | q in paths
        ensures |q| >= 1
      {
        assert q in Members(paths);
      }
    }

    /** With `s == t` the search records exactly the one-vertex path `[s]`, once. */
    lemma SearchAtTarget(s: Vertex, paths: seq<seq<Vertex>>)
      requires Members(paths) == SimplePaths(s, s) && Distinct(paths)
      ensures paths == [[s]]
    {
      ContsAtTarget(vertices, EdgeMap(s), [s], s);
      assert [s] in Members(paths);
      forall j | 0 <= j < |paths|
        ensures paths[j] == [s]
      {
        assert paths[j] in Members(paths);
      }
      DistinctAt(paths, 0, |paths| - 1);
    }

    /**
     * find_path: after validating `k` and the endpoints, a shortest simple
     * path from `s` to `t` that is_reachable accepts, the first enumerated
     * among equally short ones; None when there is none.
     */
    method FindPath(s: Vertex?, t: Vertex?, k: int) returns (r: Option<seq<Vertex>>, ghost enumerated: seq<seq<Vertex>>)
      ensures Distinct(enumerated)
      ensures k < 0 || s !in vertices || t !in vertices ==> r == None
      ensures k >= 0 && s in vertices && t in vertices ==> Members(enumerated) == SimplePaths(s, t)
      ensures r == ShortestWithin(enumerated, k)
    {
      enumerated := [];
      if k < 0 {
        return None, enumerated;
      }
      if s !in vertices {
        return None, enumerated;
      }
      if t !in vertices {
        return None, enumerated;
      }
      var w: Vertex := s;
      var paths := Search(w, t);
      enumerated := paths;
      var found := false;
      var shortest: seq<Vertex> := [];
      for n := 0 to |paths|
        invariant Members(enumerated) == SimplePaths(w, t)
        invariant (if found then Some(shortest) else None) == ShortestWithin(paths[..n], k)
      {
        assert paths[..n + 1][..n] == paths[..n];
        var i := paths[n];
        assert i in SimplePaths(w, t) by {
          assert i in Members(enumerated);
        }
        SimplePathPassesFilter(w, t, i);
        SimplePathReachable(w, t, i, k);
        // find_path's sanity filter: a dfs path repeats no vertex and lies in
        // the maze, so the filter passes every path. (Its test for None has
        // no counterpart: a Vertex here is never null.)
        var flag := 0;
        for m := 0 to |i|
          invariant flag == 0
        {
          var x := i[m];
          if x !in vertices {
            flag := 1;
          }
          if multiset(i)[x] > 1 {
            flag := 1;
          }
        }
        if flag == 0 {
          var reach := IsReachable(i, k);
          if reach {
            if !found {
              found, shortest := true, i;
            } else if |shortest| > |i| {
              shortest := i;
            }
          }
        }
      }
      assert paths[..|paths|] == paths;
      if found {
        return Some(shortest), enumerated;
      }
      return None, enumerated;
    }

    /**
     * exists_path_with_extra_food: after validating `k`, `x` and the
     * endpoints, whether some simple path from `s` to `t` passes the budgeted
     * walk with `x` extra foods.
     */
    method ExistsPathWithExtraFood(s: Vertex?, t: Vertex?, k: int, x: int) returns (r: bool, ghost enumerated: seq<seq<Vertex>>)
      ensures Distinct(enumerated)
      ensures k < 0 || x < 0 || s !in vertices || t !in vertices ==> !r
      ensures k >= 0 && x >= 0 && s in vertices && t in vertices ==> Members(enumerated) == SimplePaths(s, t)
      ensures r <==> exists q :: q in enumerated && Accepted(q, k, x)
    {
      enumerated := [];
      if k < 0 {
        return false, enumerated;
      }
      if x < 0 {
        return false, enumerated;
      }
      if s !in vertices {
        return false, enumerated;
      }
      if t !in vertices {
        return false, enumerated;
      }
      var w: Vertex := s;
      var paths := Search(w, t);
      enumerated := paths;
      for n := 0 to |paths|
        invariant Members(enumerated) == SimplePaths(w, t)
        invariant FirstAccepted(paths, k, x) == n + FirstAccepted(paths[n..], k, x)
      {
        assert paths[n..][1..] == paths[n + 1..];
        var ok := IsReachableWithExtraFood(paths[n], k, x);
        if ok {
          assert paths[n] in enumerated && Accepted(paths[n], k, x);
          return true, enumerated;
        }
      }
      FirstAcceptedIsFirst(paths, k, x);
      return false, enumerated;
    }

    /**
     * find_location_of_extra_food: the extra-food locations get_location
     * records on the first simple path from `s` to `t` that the budgeted walk
     * accepts, or None when it accepts none. Unlike the other queries it does
     * not validate `s`, `t`, `k` or `x`.
     */
    method FindLocationOfExtraFood(s: Vertex, t: Vertex?, k: int, x: int) returns (r: Option<seq<Vertex>>, ghost enumerated: seq<seq<Vertex>>)
      ensures Distinct(enumerated)
      ensures Members(enumerated) == SimplePaths(s, t)
      ensures r == None <==> forall q :: q in enumerated ==> !Accepted(q, k, x)
      ensures r.Some? ==> exists j :: 0 <= j < |enumerated| && Accepted(enumerated[j], k, x)
                            && r.value == PathLocations(enumerated[j], k)
                            && forall i :: 0 <= i < j ==> !Accepted(enumerated[i], k, x)
      ensures r.Some? ==> |r.value| <= Walks.Budget(x)
    {
      var paths := Search(s, t);
      enumerated := paths;
      r := FirstLocations(paths, k, x);
    }

    /** The loop of find_location_of_extra_food over the enumerated paths. */
    method FirstLocations(paths: seq<seq<Vertex>>, k: int, x: int) returns (r: Option<seq<Vertex>>)
      requires forall q :: q in paths ==> |q| >= 1
      ensures r == None <==> forall q :: q in paths ==> !Accepted(q, k, x)
      ensures r.Some? ==> exists j :: 0 <= j < |paths| && Accepted(paths[j], k, x)
                            && r.value == PathLocations(paths[j], k)
                            && forall i :: 0 <= i < j ==> !Accepted(paths[i], k, x)
      ensures r.Some? ==> |r.value| <= Walks.Budget(x)
    {
      var locations: seq<Vertex> := [];
      for n := 0 to |paths|
        invariant locations == []
        invariant FirstAccepted(paths, k, x) == n + FirstAccepted(paths[n..], k, x)
      {
        assert paths[n..][1..] == paths[n + 1..];
        var ok;
        ok, locations := GetLocation(paths[n], k, x, locations);
        if ok {
          PathLocationsPlaced(paths[n], k);
          FirstAcceptedIsFirst(paths, k, x);
          return Some(locations);
        }
      }
      FirstAcceptedIsFirst(paths, k, x);
      return None;
    }

    /**
     * minimize_extra_food, as written: the first path's list is appended to
     * the outer list instead of its slot, so the slot stays empty and every
     * later comparison against it fails. The result is the empty list when
     * any simple path exists, else None.
     */
    method MinimizeExtraFood(s: Vertex, t: Vertex?, k: int) returns (r: Option<seq<Vertex>>, ghost enumerated: seq<seq<Vertex>>)
      ensures Distinct(enumerated)
      ensures Members(enumerated) == SimplePaths(s, t)
      ensures r == if enumerated == [] then None else Some([])
      ensures r.None? <==> forall q :: q !in SimplePaths(s, t)
    {
      var paths := Search(s, t);
      enumerated := paths;
      var locations: seq<Vertex> := [];
      var seen := false;
      var smallest: seq<Vertex> := [];
      // the first path's locations, appended to the outer smallest_locations list (graph.py:468-469)
      var spilled: seq<Vertex> := [];
      for n := 0 to |paths|
        invariant locations == [] && smallest == []
        invariant seen <==> n > 0
      {
        locations := GetLocation2(paths[n], k, locations);
        if !seen {
          for m := 0 to |locations| {
            spilled := spilled + [locations[m]];
          }
          seen := true;
        } else if |smallest| > |locations| {
          // never taken: the slot compared against is always empty
          smallest := locations;
        }
        locations := [];
      }
      if seen {
        assert paths[0] in Members(enumerated);
        return Some(smallest), enumerated;
      }
      return None, enumerated;
    }

    /**
     * minimize_extra_food as its documentation describes it: the shortest
     * get_location2 list over all simple paths from `s` to `t` (the first
     * enumerated among equally short ones), or None.
     */
    method MinimizeExtraFoodFixed(s: Vertex, t: Vertex?, k: int) returns (r: Option<seq<Vertex>>, ghost enumerated: seq<seq<Vertex>>)
      ensures Distinct(enumerated)
      ensures Members(enumerated) == SimplePaths(s, t)
      ensures r == Shortest(LocationsEach(enumerated, k))
      ensures r.None? <==> forall q :: q !in SimplePaths(s, t)
    {
      var paths := Search(s, t);
      enumerated := paths;
      if paths != [] {
        assert paths[0] in Members(paths);
      }
      r := SmallestLocations(paths, k);
      ShortestIsFirstLeast(LocationsEach(paths, k));
    }

    /** The loop of minimize_extra_food over the enumerated paths, with the slot fixed. */
    method SmallestLocations(paths: seq<seq<Vertex>>, k: int) returns (r: Option<seq<Vertex>>)
      requires forall q :: q in paths ==> |q| >= 1
      ensures r == Shortest(LocationsEach(paths, k))
    {
      var locations: seq<Vertex> := [];
      var seen := false;
      var smallest: seq<Vertex> := [];
      for n := 0 to |paths|
        invariant locations == []
        invariant (if seen then Some(smallest) else None) == Shortest(LocationsEach(paths[..n], k))
      {
        locations := GetLocation2(paths[n], k, locations);
        assert locations == PathLocations(paths[n], k);
        SmallestStep(paths, n, k);
        if !seen || |smallest| > |locations| {
          smallest := locations;
          seen := true;
        }
        locations := [];
      }
      assert paths[..|paths|] == paths;
      if seen {
        return Some(smallest);
      }
      return None;
    }
  }
}
