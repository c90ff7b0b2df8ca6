/**
 * The adjacency-list representation of an undirected graph: a map from a node
 * to the list of its neighbours, in the order the edges were added.
 */
module Adjacency {

  type AdjList = map<int, seq<int>>

  /** The neighbour list of `x`; a node without an entry has none. */
  function Neighbours(g: AdjList, x: int): seq<int>
  {
    if x in g then g[x] else []
  }

  /** Every node that appears in some neighbour list has an entry of its own. */
  ghost predicate Closed(g: AdjList)
  {
    forall u, v :: u in g && v in g[u] ==> v in g
  }

  /**
   * The adjacency lists after adding the undirected edge {u, v}: `u` first
   * gets `v` appended to its (possibly new) list, then `v` gets `u` appended.
   * For a self-loop both appends go to the same list.
   */
  function WithEdge(g: AdjList, u: int, v: int): (r: AdjList)
    ensures r.Keys == g.Keys + {u, v}
    ensures u != v ==> r[u] == Neighbours(g, u) + [v] && r[v] == Neighbours(g, v) + [u]
    ensures u == v ==> r[u] == Neighbours(g, u) + [u, u]
    ensures forall k :: k in g && k != u && k != v ==> r[k] == g[k]
  {
    var g1 := g[u := Neighbours(g, u) + [v]];
    g1[v := Neighbours(g1, v) + [u]]
  }

  /** Adding an edge keeps every listed neighbour a node with a list of its own. */
  lemma WithEdgeKeepsClosed(g: AdjList, u: int, v: int)
    requires Closed(g)
    ensures Closed(WithEdge(g, u, v))
  {
  }
}
