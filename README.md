# Quokka maze

A model of `QuokkaMaze`, the undirected graph of locations ("vertices"), some with food, from the
Quokka survival strategy project. A colony of quokkas walks a simple path from `s` to `t`. Every hop
costs one unit of stamina. Arriving at a vertex with food refills the stamina to `k`, and the colony
fails when its stamina runs out before the end of the path.

The class has three parts, and the model follows each in the source's own imperative form:

- **Graph store.** `add_vertex`, `fix_edge` and `block_edge` are methods of the class
  `Maze.QuokkaMaze`. The class has a `vertices: seq<Vertex>` field. Each `Vertices.Vertex` has an
  `edges` set. Each method's contract states the new state and the invariants it keeps.
- **Simple-path enumerator.** `dfs` is a recursive method over a `SearchBuffers` object that holds
  the `path`, `visited` and `simple_paths` lists. It is proved complete and sound against
  `SimplePaths(s, t)`. That is the set of sequences that:
  - start at `s` and end at `t`;
  - repeat no vertex;
  - keep every later vertex in the maze;
  - step only along edges.
- **Stamina walks and the four queries.**
  - `is_reachable`, `is_reachable_with_extra_food`, `get_location` and `get_location2` are loops.
    Each is verified against a recursive function over the path's food flags, in module `Walks`.
  - `Walks` proves what those functions mean:
    - the closed form of the plain walk: every hop is an edge and the food anchors are at most `k`
      hops apart;
    - the greedy placement of extra food is sound and optimal.
  - The queries `find_path`, `exists_path_with_extra_food`, `find_location_of_extra_food` and
    `minimize_extra_food` run the enumerator and select among its paths. Their contracts relate
    the result to the enumerated paths. Lemmas then relate it to all simple paths of the maze.

The order in which `dfs` visits a vertex's neighbours is unspecified: graph.py:59 only says that the
order of `vertex.edges` does not matter, and the model keeps `edges` as a set. Each query therefore
returns the order it used as a ghost out-parameter `enumerated`. "First" and "ties" are stated
against that order.

Module `ChainExample` restates the chain A–B–C–D–E as lemmas. In a maze made of that chain alone,
the chain is the only simple path from A to E, so the lemmas pin down what the queries return
there. With food only at E it is the worked example of find_location_of_extra_food,
minimize_extra_food and `tests/test_sample_advanced.py`. With food at C and E it is the example of
find_path.

## Model

| member | source | states |
|---|---|---|
| Maze.QuokkaMaze.constructor | graph.py:72-76 | A new maze has no vertices. |
| Maze.QuokkaMaze.AddVertex | graph.py:78-97 | None: returns false and changes nothing. A missing vertex is appended and the call returns true. A vertex already present has every occurrence removed and is appended once more, and the call returns false. Afterwards it occurs exactly once and the multiset of the other members is unchanged. Uniqueness of the vertex list is preserved. If neighbours were symmetric and inside the maze before, they still are, unless a new vertex that already has neighbours is appended. |
| Maze.RemoveAll | graph.py:94-95 | The loop that removes the first occurrence while one is left ends with every occurrence removed and the other elements in order. |
| Maze.SameMembers | graph.py:94-96 | Removing every occurrence of a member and appending it once keeps the same members, so symmetry of neighbours and neighbours staying inside the maze hold afterwards exactly when they held before. |
| Maze.QuokkaMaze.FixEdge | graph.py:99-127 | Returns true iff both endpoints are non-null members and the edge is not already present in both directions. On true, each endpoint gains the other as a neighbour. On false, no neighbour set changes. Only `u` and `v` are modified. Symmetry of the neighbour relation is preserved, and so is every neighbour being a maze vertex. |
| Maze.QuokkaMaze.BlockEdge | graph.py:129-151 | Returns true iff both endpoints are members and at least one direction of the edge is present. On true, both directions are removed. On false, nothing changes. Only `u` and `v` are modified. Symmetry is preserved, and so is every neighbour being a maze vertex. |
| Maze.SearchBuffers.constructor | graph.py:196-198 | The search starts with empty `path`, `visited` and `simple_paths` lists. |
| Maze.QuokkaMaze.Dfs | graph.py:227-245 | `path` and `visited` are restored on return, and earlier recorded paths are kept. The newly recorded paths are exactly the continuations of the stack through `s` to `t`: simple, inside the maze, along edges. All of them are recorded, each exactly once, so the search is sound and complete and repeats no path. When `s == t` exactly the stack through `s` is recorded. |
| Maze.QuokkaMaze.Search | graph.py:196-202 | The dfs call each query makes records exactly the simple paths from `s` to `t`, each once and each non-empty. |
| Maze.QuokkaMaze.SearchAtTarget | graph.py:229-236 | When `s == t` the search records the one-vertex path `[s]` and nothing else. |
| Maze.QuokkaMaze.SimplePathShape | graph.py:227-245 | A recorded path starts at `s`, ends at `t`, repeats no vertex, has every later vertex in the maze, and every hop is an edge. |
| Maze.QuokkaMaze.SimplePathPassesFilter | graph.py:203-213 | find_path's sanity filter (membership, no repeated vertex) passes every simple path from a maze vertex. |
| Maze.QuokkaMaze.IsReachable | graph.py:247-265 | The loop returns the plain walk's verdict `PathReachable(path, k)`. |
| Walks.ReachableIffGaps | graph.py:247-265 | For k >= 0 the plain walk accepts iff every hop is along an edge and every position before the last is fewer than k hops past the most recent food (or the start). That is, successive anchors are at most k apart. |
| Maze.QuokkaMaze.PathReachableIffGaps | graph.py:247-265 | The same closed form, stated for a path of maze vertices. |
| Walks.ReachableMonotone | graph.py:247-265 | For 0 <= k <= k', acceptance with k implies acceptance with k'. |
| Walks.SingleVertex | graph.py:253-255 | A one-vertex path is always accepted, and no food is placed on it. |
| Maze.QuokkaMaze.SimplePathReachable | graph.py:214 | Along a simple path is_reachable accepts iff the food gaps are within k. |
| Maze.QuokkaMaze.IsReachableWithExtraFood | graph.py:325-346 | Accepts iff the greedy placement needs no more extra foods than the budget max(x, 0). |
| Maze.QuokkaMaze.GetLocation | graph.py:400-425 | Accepts under the same condition. On acceptance it appends exactly the greedy locations `PathLocations(path, k)` to the caller's list. On rejection it returns the emptied list. |
| Maze.QuokkaMaze.GetLocation2 | graph.py:481-497 | Appends exactly `PathLocations(path, k)` to the caller's list. |
| Maze.LocationsFromPlaced | graph.py:408-425 | The recorded vertices are exactly the path's vertices at the greedy placement positions, from any position and stamina. |
| Maze.PathLocationsPlaced | graph.py:400-425 | get_location's list has one vertex per placement: the vertex at each greedy placement position. |
| Walks.PlacementsFromShape | graph.py:408-425 | Placements are at strictly increasing positions, never at the last one. The walk places at its starting position iff it starts exhausted. |
| Walks.PlacementsSound | graph.py:481-497 | For k >= 1, food at the greedy positions makes the plain walk accept. |
| Walks.PlacementsOptimal | graph.py:481-497 | Any food assignment that keeps the existing food and makes the plain walk accept adds at least as many foods as the greedy walk places. |
| Walks.PlacementsStable | graph.py:481-497 | Proof step for the optimality of get_location2 (`Walks.PlacementsOptimal`): starting its greedy walk with less stamina costs at least as many placements, and at most one more. |
| Maze.QuokkaMaze.SimplePathLocations | graph.py:481-497 | For k >= 1 and a simple path, food at get_location2's positions makes is_reachable accept, and no accepting food assignment adds fewer foods. |
| Maze.QuokkaMaze.SimplePathAccepted | graph.py:320-346 | For k >= 1 and x >= 0, when the budgeted walk accepts a simple path, its own at most x placements make is_reachable accept. Conversely, when some way of adding at most x foods makes is_reachable accept, the budgeted walk accepts. |
| Maze.QuokkaMaze.FindPath | graph.py:153-225 | None when k < 0 or an endpoint is not a member. Otherwise the enumerated paths are exactly the simple paths, each listed once, and the result is the first of the shortest among them whose food gaps are within k (`ShortestWithin`), or None. |
| Maze.ShortestWhereNone | graph.py:214-225 | The first of the shortest lists satisfying a condition (`ShortestWhere`; `ShortestWithin` takes "food gaps within k") is None iff no list satisfies the condition. |
| Maze.ShortestWhereIsFirstLeast | graph.py:214-225 | When it exists, it is a list satisfying the condition, no longer than any other such list, and strictly shorter than every such list enumerated before it. This matches the strict `>` of the tie rule. |
| Maze.QuokkaMaze.ShortestWithinMeaning | graph.py:153-225 | Over the enumerated simple paths, find_path's result is None iff is_reachable accepts no simple path from `s` to `t`. Otherwise it is a simple path that is_reachable accepts and that is no longer than any other accepted simple path. |
| Maze.QuokkaMaze.ExistsPathWithExtraFood | graph.py:269-323 | False when k < 0, x < 0 or an endpoint is not a member. Otherwise the enumerated paths are exactly the simple paths, each listed once, and the result is true iff the budgeted walk accepts one of them. |
| Maze.FirstAcceptedIsFirst | graph.py:320-323 | `FirstAccepted` is the position of the first enumerated path the budgeted walk accepts: no earlier path is accepted, and the one there is. |
| Maze.QuokkaMaze.FindLocationOfExtraFood | graph.py:349-399 | Without validation, the enumerated paths are exactly the simple paths, each listed once. The result is None iff the budgeted walk accepts none of them. Otherwise it is get_location's list for the first accepted path, of length at most max(x, 0). |
| Maze.QuokkaMaze.FirstLocations | graph.py:396-399 | The loop of find_location_of_extra_food satisfies the same contract over a given list of paths. |
| Maze.QuokkaMaze.MinimizeExtraFood | graph.py:427-479 | As written: the enumerated paths are exactly the simple paths, each listed once, and the result is `[]` whenever there is one. It is None iff there is no simple path from `s` to `t`. |
| Maze.QuokkaMaze.MinimizeExtraFoodFixed | graph.py:427-458 | As documented: the enumerated paths are exactly the simple paths, each listed once, and the result is the first of the shortest get_location2 lists over them. It is None iff there is no simple path from `s` to `t`. |
| Maze.QuokkaMaze.SmallestLocations | graph.py:465-479 | The fixed loop over a given list of paths returns `Shortest` of their get_location2 lists. |
| Maze.ShortestIsFirstLeast | graph.py:465-479 | `Shortest` is None iff there are no lists. Otherwise it is a list no longer than any other and strictly shorter than every earlier one. |
| Maze.LocationsEachAt | graph.py:465-466 | The j-th entry of `LocationsEach` is get_location2's list for the j-th path. |
| Maze.QuokkaMaze.SmallestLocationsMeaning | graph.py:427-458 | For k >= 1 the fixed result is None iff there is no simple path. Otherwise it is get_location2's list for some simple path, and no food assignment that makes any simple path acceptable adds fewer foods. |
| Vertices.Vertex.AddEdge | graph.py:123-126 | Assumed behaviour of `add_edge`: the neighbour set gains `v`. |
| Vertices.Vertex.RmEdge | graph.py:147-150 | Assumed behaviour of `rm_edge`: the neighbour set loses `v`. |
| Walks.ZeroBoundAcceptsAfterOnePlacement | graph.py:332-346 | With k = 0 the budgeted walk accepts a three-vertex path without food after one placement, although no food assignment lets the plain walk make a hop. With food on the middle vertex it places twice, because that food resets the stamina to 0. |
| Walks.AcceptsWithinFixedExact | graph.py:325-346 | The corrected budgeted acceptance holds exactly when at most x extra foods can make the plain walk accept. |
| ChainExample.ChainReachable | graph.py:296-297 | On the chain (food only at E), the plain walk fails for k = 2 and k = 3 and succeeds for k = 4. |
| ChainExample.ChainOnlyPaths | graph.py:227-245 | In the maze made of the chain alone, dfs from A records only the chain as a path to E, and only A, B, C as a path to C. |
| ChainExample.ChainFindPath | graph.py:175-185 | With food at C and E: is_reachable accepts the chain for k = 2 and refuses it for k = 1, and accepts A, B, C for k = 4. So find_path gives the chain for k = 2, None for k = 1, and A, B, C from A to C with k = 4. |
| ChainExample.ChainLocations | tests/test_sample_advanced.py:102-152 | On the chain, get_location records [C] for k = 2 and [B, C, D] for k = 1. With k = 2 a budget of 0 is refused and a budget of 1 accepted. With k = 1 a budget of 6 is accepted. |
| ChainExample.ChainFindLocation | graph.py:370-382 | In the chain maze every enumerated path is the chain. With k = 2 a budget of 0 accepts none of them, so find_location_of_extra_food gives None. A budget of 1 accepts the first one with food on C, so it gives [C]. With k = 1 a budget of 6 accepts it with food on B, C and D, so it gives [B, C, D]. |
| ChainExample.SameEndpoints | tests/test_sample_advanced.py:201-208 | From A to A the search records only `[A]`, and get_location2 records nothing on it. So minimize_extra_food(A, A, 0) returns `[]`, both as written and fixed. |
| ChainExample.ChainSmallest | graph.py:448-453 | In the chain maze, the fixed minimisation over the enumerated paths gives [C] for k = 2 and [B, C, D] for k = 1. |

## Left out

- `vertex.py` is not part of this model. `Vertex` is assumed to have a food flag and a neighbour set, and `add_edge` and `rm_edge` are assumed to insert and remove. Any self-reference guard inside `add_edge` is not modelled, so `FixEdge(u, u)` makes `u` its own neighbour.
- The food flag is a constant, because the maze reads `has_food` but never writes it.
- Python's `==` on vertices is modelled as reference identity. Vertices in the maze and in neighbour sets are never None, so the `None` tests inside find_path's filter and inside dfs are unreachable and have no counterpart.
- Maze.QuokkaMaze.AddVertex: follows the code rather than the documentation. A "failed" call on a present vertex moves it to the end of the list rather than leaving the list unchanged.
- Maze.QuokkaMaze.FindLocationOfExtraFood: `s` must be non-null. With `s = None` and `t` not None, the source fails inside dfs with an attribute error, which is not modelled. With `s = t = None` the source does not fail: dfs records the one-vertex path `[None]`, get_location accepts it without recording anything, and the query returns `[]`. That case is not modelled either.
- Maze.QuokkaMaze.MinimizeExtraFood: `s` must be non-null, for the same reason. With `s = t = None` the source records `[None]` and get_location2 records nothing on it, so the query returns `[]`. That case is not modelled.
- Maze.QuokkaMaze.MinimizeExtraFoodFixed: `s` must be non-null, as for the two queries above.
- The iteration order of a vertex's neighbour set is not modelled. dfs picks neighbours in an unspecified order. The order actually used is returned as the ghost `enumerated`, and "first" means first in that order.
- Maze.QuokkaMaze.FindPath: the contract states acceptance as `FoodGapsWithin` over the enumerated paths. That is is_reachable's verdict on those paths, connected by `ShortestWithinMeaning`.
- Recursion depth of dfs and the exponential cost of enumerating every simple path are not modelled.
- Maze.QuokkaMaze.MinimizeExtraFoodFixed: copies the smallest list by assignment rather than element by element. The separate `locations` list that the source clears is likewise assigned.

## Findings

| source | as written | input that shows it | evidently intended | confidence | as-written member | corrected member |
|---|---|---|---|---|---|---|
| graph.py:468-470 | The first path's locations are appended to `smallest_locations` itself rather than to its slot `smallest_locations[1]`, so the slot stays `[]` and later comparisons against it never succeed. | Chain A–B–C–D–E with food only at E, `minimize_extra_food(A, E, 2)`: returns `[]`. | `[C]`, the fewest locations over all simple paths (graph.py:452-453). | not executed | Maze.QuokkaMaze.MinimizeExtraFood | Maze.QuokkaMaze.MinimizeExtraFoodFixed, Maze.QuokkaMaze.SmallestLocationsMeaning, ChainExample.ChainSmallest |
| graph.py:336-341 | With k = 0 and budget left, the refill sets stamina to 0 and the decrement makes it -1. Stamina reads as 0 again only when a food vertex resets it, and each such vertex before the end costs one more placement. So a path of two or more vertices with no food after its start is accepted after one placement, whatever its length. | Path of three vertices without food, k = 0, x = 1: accepted, though no placement lets the quokkas make a single hop. | With k = 0 only a one-vertex path is accepted. | not executed | Walks.ZeroBoundAcceptsAfterOnePlacement | Walks.AcceptsWithinFixed, Walks.AcceptsWithinFixedExact |
