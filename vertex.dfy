/**
 * The maze's locations. The vertex record itself is not part of this model;
 * the maze only relies on what is taken for granted here: a food flag, a set of
 * neighbours, and add_edge / rm_edge inserting into and removing from that set.
 * The maze reads the food flag and never writes it, so it is a constant.
 */
module Vertices {

  class Vertex {
    const hasFood: bool
    var edges: set<Vertex>

    constructor (hasFood: bool)
      ensures this.hasFood == hasFood && edges == {}
    {
      this.hasFood := hasFood;
      edges := {};
    }

    /** add_edge: `v` becomes a neighbour. */
    method AddEdge(v: Vertex)
      modifies this
      ensures edges == old(edges) + {v}
    {
      edges := edges + {v};
    }

    /** rm_edge: `v` is no longer a neighbour. */
    method RmEdge(v: Vertex)
      modifies this
      ensures edges == old(edges) - {v}
    {
      edges := edges - {v};
    }
  }
}
