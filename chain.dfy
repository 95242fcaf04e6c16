/**
 * The worked examples of find_path, find_location_of_extra_food and
 * minimize_extra_food: the chain A -- B -- C -- D -- E.
 */
module ChainExample {
  import Walks
  import opened Vertices
  import opened Maze

  /** The chain's path, with food only at its last vertex and every hop an edge. */
  ghost predicate Chain(a: Vertex, b: Vertex, c: Vertex, d: Vertex, e: Vertex)
    reads a, b, c, d
  {
    !a.hasFood && !b.hasFood && !c.hasFood && !d.hasFood && e.hasFood
    && b in a.edges && c in b.edges && d in c.edges && e in d.edges
  }

  /** The chain as a maze: five distinct members, each linked to exactly its neighbours on the chain. */
  ghost predicate ChainMaze(m: QuokkaMaze, a: Vertex, b: Vertex, c: Vertex, d: Vertex, e: Vertex)
    reads m, a, b, c, d, e
  {
    a in m.vertices && b in m.vertices && c in m.vertices && d in m.vertices && e in m.vertices
    && Distinct([a, b, c, d, e])
    && a.edges == {b} && b.edges == {a, c} && c.edges == {b, d} && d.edges == {c, e} && e.edges == {d}
  }

  lemma ChainFlags(a: Vertex, b: Vertex, c: Vertex, d: Vertex, e: Vertex)
    ensures FoodOf([a, b, c, d, e]) == [a.hasFood, b.hasFood, c.hasFood, d.hasFood, e.hasFood]
    ensures LinkedOf([a, b, c, d, e]) == [b in a.edges, c in b.edges, d in c.edges, e in d.edges]
  {
    var p := [a, b, c, d, e];
    FoodAt(p, 0); FoodAt(p, 1); FoodAt(p, 2); FoodAt(p, 3); FoodAt(p, 4);
    LinkedAt(p, 0); LinkedAt(p, 1); LinkedAt(p, 2); LinkedAt(p, 3);
  }

  lemma PrefixFlags(a: Vertex, b: Vertex, c: Vertex)
    ensures FoodOf([a, b, c]) == [a.hasFood, b.hasFood, c.hasFood]
    ensures LinkedOf([a, b, c]) == [b in a.edges, c in b.edges]
  {
    var p := [a, b, c];
    FoodAt(p, 0); FoodAt(p, 1); FoodAt(p, 2);
    LinkedAt(p, 0); LinkedAt(p, 1);
  }

  /** Position `i` of a simple path from A in the chain maze is position `i` of the chain. */
  lemma {:induction false} ChainPrefix(m: QuokkaMaze, a: Vertex, b: Vertex, c: Vertex, d: Vertex, e: Vertex,
                                       t: Vertex, q: seq<Vertex>, i: nat)
    requires ChainMaze(m, a, b, c, d, e) && q in m.SimplePaths(a, t) && i < |q|
    ensures i < 5 && q[i] == [a, b, c, d, e][i]
  {
    var adj := m.EdgeMap(a);
    assert Continues(m.vertices, adj, [a], t, q);
    if i == 0 {
      assert q[..1] == [a];
    } else {
      ChainPrefix(m, a, b, c, d, e, t, q, i - 1);
      assert Hop(adj, q[i - 1], q[i]);
      if i >= 2 {
        ChainPrefix(m, a, b, c, d, e, t, q, i - 2);
        assert q[i - 2] != q[i];
      }
    }
  }

  /** A simple path from A in the chain maze can only follow the chain. */
  lemma ChainWalk(m: QuokkaMaze, a: Vertex, b: Vertex, c: Vertex, d: Vertex, e: Vertex, t: Vertex, q: seq<Vertex>)
    requires ChainMaze(m, a, b, c, d, e) && q in m.SimplePaths(a, t)
    ensures 1 <= |q| <= 5 && forall i :: 0 <= i < |q| ==> q[i] == [a, b, c, d, e][i]
  {
    forall i | 0 <= i < |q|
      ensures i < 5 && q[i] == [a, b, c, d, e][i]
    {
      ChainPrefix(m, a, b, c, d, e, t, q, i);
    }
    ChainPrefix(m, a, b, c, d, e, t, q, |q| - 1);
  }

  /**
   * In the chain maze the chain is the only simple path from A to E, and its
   * prefix A, B, C the only one from A to C.
   */
  lemma ChainOnlyPaths(m: QuokkaMaze, a: Vertex, b: Vertex, c: Vertex, d: Vertex, e: Vertex)
    requires ChainMaze(m, a, b, c, d, e)
    ensures m.SimplePaths(a, e) == iset{[a, b, c, d, e]}
    ensures m.SimplePaths(a, c) == iset{[a, b, c]}
  {
    var adj := m.EdgeMap(a);
    var ch := [a, b, c, d, e];
    forall q | q in m.SimplePaths(a, e)
      ensures q == ch
    {
      ChainWalk(m, a, b, c, d, e, e, q);
      DistinctAt(ch, |q| - 1, 4);
    }
    forall q | q in m.SimplePaths(a, c)
      ensures q == [a, b, c]
    {
      ChainWalk(m, a, b, c, d, e, c, q);
      DistinctAt(ch, |q| - 1, 2);
    }
    assert Hop(adj, a, b) && Hop(adj, b, c) && Hop(adj, c, d) && Hop(adj, d, e);
    assert Continues(m.vertices, adj, [a], e, ch);
    assert [a, b, c] == ch[..3];
    assert Continues(m.vertices, adj, [a], c, [a, b, c]);
  }

  /**
   * is_reachable along the chain: with food only at E the four hops need
   * k >= 4, so without extra food k = 2 does not get from A to E.
   */
  lemma ChainReachable(a: Vertex, b: Vertex, c: Vertex, d: Vertex, e: Vertex)
    requires Chain(a, b, c, d, e)
    ensures !PathReachable([a, b, c, d, e], 2) && !PathReachable([a, b, c, d, e], 3)
    ensures PathReachable([a, b, c, d, e], 4)
  {
    ChainFlags(a, b, c, d, e);
    assert !Walks.Reachable([false, false, false, false, true], [true, true, true, true], 2);
    assert !Walks.Reachable([false, false, false, false, true], [true, true, true, true], 3);
    assert Walks.Reachable([false, false, false, false, true], [true, true, true, true], 4);
  }

  /**
   * find_path's documented example, with food at C and E: from A to E the
   * chain is found for k = 2 and nothing for k = 1; from A to C with k = 4
   * the path A, B, C is found.
   */
  lemma ChainFindPath(m: QuokkaMaze, a: Vertex, b: Vertex, c: Vertex, d: Vertex, e: Vertex,
                      ps: seq<seq<Vertex>>, pc: seq<seq<Vertex>>)
    requires ChainMaze(m, a, b, c, d, e)
    requires !a.hasFood && !b.hasFood && c.hasFood && !d.hasFood && e.hasFood
    requires Members(ps) == m.SimplePaths(a, e) && Members(pc) == m.SimplePaths(a, c)
    ensures PathReachable([a, b, c, d, e], 2) && !PathReachable([a, b, c, d, e], 1)
    ensures PathReachable([a, b, c], 4)
    ensures ShortestWithin(ps, 2) == Some([a, b, c, d, e])
    ensures ShortestWithin(ps, 1) == None
    ensures ShortestWithin(pc, 4) == Some([a, b, c])
  {
    ChainOnlyPaths(m, a, b, c, d, e);
    ChainFlags(a, b, c, d, e);
    PrefixFlags(a, b, c);
    assert Walks.Reachable([false, false, true, false, true], [true, true, true, true], 2);
    assert !Walks.Reachable([false, false, true, false, true], [true, true, true, true], 1);
    assert Walks.Reachable([false, false, true], [true, true], 4);
    assert [a, b, c, d, e] in m.SimplePaths(a, e) && [a, b, c] in m.SimplePaths(a, c);
    m.ShortestWithinMeaning(a, e, ps, 2);
    m.ShortestWithinMeaning(a, e, ps, 1);
    m.ShortestWithinMeaning(a, c, pc, 4);
  }

  /**
   * get_location on the chain: with k = 2 the one extra food goes on C, so a
   * budget of 0 is refused and a budget of 1 accepted; with k = 1 the foods
   * go on B, C and D, within a budget of 6.
   */
  lemma ChainLocations(a: Vertex, b: Vertex, c: Vertex, d: Vertex, e: Vertex)
    requires Chain(a, b, c, d, e)
    ensures PathLocations([a, b, c, d, e], 2) == [c]
    ensures !Accepted([a, b, c, d, e], 2, 0) && Accepted([a, b, c, d, e], 2, 1)
    ensures PathLocations([a, b, c, d, e], 1) == [b, c, d]
    ensures Accepted([a, b, c, d, e], 1, 6)
  {
    var p := [a, b, c, d, e];
    ChainFlags(a, b, c, d, e);
    var food := [false, false, false, false, true];
    assert Walks.Placements(food, 2) == [2];
    assert Walks.Placements(food, 1) == [1, 2, 3];
    PathLocationsPlaced(p, 2);
    PathLocationsPlaced(p, 1);
  }

  /**
   * find_location_of_extra_food on the chain maze: every enumerated path is
   * the chain, so with k = 2 a budget of 0 finds nothing, and with a budget
   * of 1 the first enumerated path is accepted with its food on C; with
   * k = 1 and a budget of 6 it is accepted with food on B, C and D.
   */
  lemma ChainFindLocation(m: QuokkaMaze, a: Vertex, b: Vertex, c: Vertex, d: Vertex, e: Vertex, ps: seq<seq<Vertex>>)
    requires ChainMaze(m, a, b, c, d, e) && Chain(a, b, c, d, e)
    requires Members(ps) == m.SimplePaths(a, e)
    ensures ps != [] && forall q :: q in ps ==> q == [a, b, c, d, e]
    ensures forall q :: q in ps ==> !Accepted(q, 2, 0) && Accepted(q, 2, 1) && PathLocations(q, 2) == [c]
    ensures forall q :: q in ps ==> Accepted(q, 1, 6) && PathLocations(q, 1) == [b, c, d]
  {
    ChainOnlyPaths(m, a, b, c, d, e);
    ChainLocations(a, b, c, d, e);
    assert [a, b, c, d, e] in Members(ps);
    forall q | q in ps
      ensures q == [a, b, c, d, e]
    {
      assert q in Members(ps);
    }
  }

  /**
   * The documented results of minimize_extra_food on the chain maze, where
   * the chain is the only simple path from A to E: [C] for k = 2 and
   * [B, C, D] for k = 1.
   */
  lemma ChainSmallest(m: QuokkaMaze, a: Vertex, b: Vertex, c: Vertex, d: Vertex, e: Vertex, ps: seq<seq<Vertex>>)
    requires ChainMaze(m, a, b, c, d, e) && Chain(a, b, c, d, e)
    requires Members(ps) == m.SimplePaths(a, e)
    ensures Shortest(LocationsEach(ps, 2)) == Some([c])
    ensures Shortest(LocationsEach(ps, 1)) == Some([b, c, d])
  {
    ChainOnlyPaths(m, a, b, c, d, e);
    ChainLocations(a, b, c, d, e);
    assert [a, b, c, d, e] in m.SimplePaths(a, e);
    m.SmallestLocationsMeaning(a, e, ps, 2);
    m.SmallestLocationsMeaning(a, e, ps, 1);
  }

  /**
   * The sample test's minimize_extra_food(A, A, 0): the search from A to A
   * records only [A], and get_location2 records nothing on it, so both the
   * query as written and the fixed one return [].
   */
  lemma SameEndpoints(m: QuokkaMaze, a: Vertex, ps: seq<seq<Vertex>>)
    requires Members(ps) == m.SimplePaths(a, a) && Distinct(ps)
    ensures ps == [[a]]
    ensures Shortest(LocationsEach(ps, 0)) == Some([])
  {
    m.SearchAtTarget(a, ps);
    PathLocationsPlaced([a], 0);
    Walks.SingleVertex(FoodOf([a]), 0);
    var none: seq<seq<Vertex>>, empty: seq<Vertex> := [], [];
    assert LocationsEach(ps, 0) == none + [empty];
    ShortestSnoc(none, empty);
  }
}
