/**
 * The undirected graph object: an adjacency-list map that `AddEdge` updates
 * in place, and two traversals, one recursive and one with an explicit
 * stack, that both produce the depth-first order of `DepthFirst.DfsOrder`.
 */
module GraphDfs {
  import opened Adjacency
  import opened DepthFirst
  import opened DfsProperties

  class Graph {
    var adj: AdjList

    /** Every node named in a neighbour list has a list of its own. */
    ghost predicate Valid()
      reads this
    {
      Closed(adj)
    }

    constructor ()
      ensures Valid() && adj == map[]
    {
      adj := map[];
    }

    /** Add the undirected edge {u, v}: append `v` to u's list, then `u` to v's list. */
    method AddEdge(u: int, v: int)
      requires Valid()
      modifies this
      ensures Valid()
      ensures adj == WithEdge(old(adj), u, v)
    {
      if u !in adj {
        adj := adj[u := []];
      }
      adj := adj[u := adj[u] + [v]];
      ghost var g1 := adj;
      assert g1 == old(adj)[u := Neighbours(old(adj), u) + [v]];
      if v !in adj {
        adj := adj[v := []];
      }
      adj := adj[v := adj[v] + [u]];
      assert adj == g1[v := Neighbours(g1, v) + [u]];
      WithEdgeKeepsClosed(old(adj), u, v);
    }

    /** The nodes reachable from `start`, in depth-first order. */
    method Dfs(start: int) returns (result: seq<int>)
      ensures result == DfsOrder(adj, start)
      ensures |result| > 0 && result[0] == start
      ensures start !in adj ==> result == [start]
      ensures Distinct(result)
      ensures forall x :: x in result <==> Reachable(adj, start, x)
    {
      var visited;
      visited, result := DfsRecursive(start, {}, []);
      DfsOrderDistinct(adj, start);
      DfsOrderReachable(adj, start);
    }

    /**
     * Mark and list `node`, then recur into each neighbour that is still
     * unvisited when the loop reaches it. The visited set and the order are
     * threaded through the calls and handed back.
     */
    method DfsRecursive(node: int, visited: set<int>, result: seq<int>) returns (visited': set<int>, result': seq<int>)
      requires node !in visited
      ensures Trace(visited', result') == Visit(adj, node, Trace(visited, result))
      decreases |adj.Keys - visited|
    {
      ghost var goal := Visit(adj, node, Trace(visited, result));
      visited' := visited + {node};
      result' := result + [node];
      if node in adj {
        var ns := adj[node];
        assert ns[0..] == ns;
        var i := 0;
        while i < |ns|
          invariant 0 <= i <= |ns|
          invariant visited + {node} <= visited'
          invariant VisitEach(adj, ns[i..], Trace(visited', result')) == goal
        {
          var neighbour := ns[i];
          assert ns[i..][1..] == ns[i + 1..];
          if neighbour !in visited' {
            assert node in adj.Keys - visited;
            ShrinkingUnvisited(adj.Keys, visited, visited');
            visited', result' := DfsRecursive(neighbour, visited', result');
          }
          i := i + 1;
        }
      }
    }

    /**
     * The same traversal with an explicit stack: pop a node; if it is
     * unvisited, mark and list it and push its unvisited neighbours in
     * reverse, so that the first of them is popped next.
     */
    method DfsIterative(start: int) returns (result: seq<int>)
      ensures result == DfsOrder(adj, start)
      ensures |result| > 0 && result[0] == start
      ensures Distinct(result)
    {
      var visited: set<int> := {};
      result := [];
      var stack := [start];
      ghost var goal := Visit(adj, start, Trace({}, []));
      assert VisitEach(adj, [start], Trace({}, [])) == goal;
      while stack != []
        invariant VisitEach(adj, PopOrder(stack), Trace(visited, result)) == goal
        decreases |adj.Keys - visited|, |stack|
      {
        var node := stack[|stack| - 1];
        stack := stack[..|stack| - 1];
        ghost var rest := PopOrder(stack);
        ghost var before := Trace(visited, result);
        assert ([node] + rest)[0] == node && ([node] + rest)[1..] == rest;
        if node !in visited {
          visited := visited + {node};
          result := result + [node];
          if node in adj {
            var ns := adj[node];
            stack := PushUnvisitedReversed(stack, ns, visited);
            assert node in adj.Keys - before.visited;
          }
          VisitEachUnfold(adj, node, rest, before);
          ShrinkingUnvisited(adj.Keys, before.visited, visited);
        }
      }
      DfsOrderDistinct(adj, start);
    }
  }

  /**
   * The inner loop of the explicit-stack traversal: walk the neighbour list
   * from its end to its start and push each neighbour that is not visited.
   * Nothing is popped, and the pushed neighbours come off the stack in list
   * order, before anything that was on it.
   */
  method PushUnvisitedReversed(stack0: seq<int>, ns: seq<int>, visited: set<int>) returns (stack: seq<int>)
    ensures stack0 <= stack
    ensures PopOrder(stack) == Unvisited(ns, visited) + PopOrder(stack0)
  {
    stack := stack0;
    ghost var rest := PopOrder(stack0);
    var i := |ns|;
    while i > 0
      invariant 0 <= i <= |ns|
      invariant stack0 <= stack
      invariant PopOrder(stack) == Unvisited(ns[i..], visited) + rest
    {
      i := i - 1;
      PushStep(stack, ns, i, visited, rest);
      if ns[i] !in visited {
        stack := stack + [ns[i]];
      }
    }
    assert ns[0..] == ns;
  }

  /** The edges (0,1), (0,2), (1,3), (2,4), (3,4), added in that order. */
  function SampleAdjacency(): AdjList
  {
    map[0 := [1, 2], 1 := [0, 3], 2 := [0, 4], 3 := [1, 4], 4 := [2, 3]]
  }

  /** The first three sample edges, (0,1), (0,2), (1,3), give these lists. */
  lemma SampleFirstEdges()
    ensures WithEdge(WithEdge(WithEdge(map[], 0, 1), 0, 2), 1, 3)
         == map[0 := [1, 2], 1 := [0, 3], 2 := [0], 3 := [1]]
  {
    var m1 := WithEdge(map[], 0, 1);
    assert m1 == map[0 := [1], 1 := [0]] by {
      assert m1.Keys == {0, 1} && m1[0] == [1] && m1[1] == [0];
    }
    var m2 := WithEdge(m1, 0, 2);
    assert m2 == map[0 := [1, 2], 1 := [0], 2 := [0]] by {
      assert m2.Keys == {0, 1, 2} && m2[0] == [1, 2] && m2[1] == [0] && m2[2] == [0];
    }
    var m3 := WithEdge(m2, 1, 3);
    assert m3.Keys == {0, 1, 2, 3} && m3[0] == [1, 2] && m3[1] == [0, 3] && m3[2] == [0] && m3[3] == [1];
  }

  /** The fourth sample edge, (2,4), extends the lists of 2 and 4. */
  lemma SampleFourthEdge()
    ensures WithEdge(map[0 := [1, 2], 1 := [0, 3], 2 := [0], 3 := [1]], 2, 4)
         == map[0 := [1, 2], 1 := [0, 3], 2 := [0, 4], 3 := [1], 4 := [2]]
  {
    var m4 := WithEdge(map[0 := [1, 2], 1 := [0, 3], 2 := [0], 3 := [1]], 2, 4);
    assert m4.Keys == {0, 1, 2, 3, 4} && m4[0] == [1, 2] && m4[1] == [0, 3] && m4[2] == [0, 4];
    assert m4[3] == [1] && m4[4] == [2];
  }

  /** The last sample edge, (3,4), completes the sample lists. */
  lemma SampleLastEdge()
    ensures WithEdge(map[0 := [1, 2], 1 := [0, 3], 2 := [0, 4], 3 := [1], 4 := [2]], 3, 4) == SampleAdjacency()
  {
    var m5 := WithEdge(map[0 := [1, 2], 1 := [0, 3], 2 := [0, 4], 3 := [1], 4 := [2]], 3, 4);
    assert m5.Keys == {0, 1, 2, 3, 4} && m5[0] == [1, 2] && m5[1] == [0, 3] && m5[2] == [0, 4];
    assert m5[3] == [1, 4] && m5[4] == [2, 3];
  }

  /** Adding the sample edges one by one to an empty graph yields the sample lists. */
  lemma SampleAdjacencyBuilt()
    ensures WithEdge(WithEdge(WithEdge(WithEdge(WithEdge(map[], 0, 1), 0, 2), 1, 3), 2, 4), 3, 4) == SampleAdjacency()
  {
    SampleFirstEdges();
    SampleFourthEdge();
    SampleLastEdge();
  }

  /** On the sample graph, once 0 and 1 are listed, visiting 3 lists 3, 4 and 2. */
  lemma SampleVisitFromThree()
    ensures Visit(SampleAdjacency(), 3, Trace({0, 1}, [0, 1])) == Trace({0, 1, 3, 4, 2}, [0, 1, 3, 4, 2])
  {
    var g := SampleAdjacency();
    var t2 := Trace({0, 1}, [0, 1]);
    var t3 := Trace({0, 1, 3}, [0, 1, 3]);
    var t4 := Trace({0, 1, 3, 4}, [0, 1, 3, 4]);
    var t5 := Trace({0, 1, 3, 4, 2}, [0, 1, 3, 4, 2]);
    assert Mark(t4, 2) == t5 && g[2] == [0, 4];
    assert VisitEach(g, [0, 4], t5) == t5;
    assert Visit(g, 2, t4) == t5;
    assert VisitEach(g, [3], t5) == t5;
    assert VisitEach(g, [2, 3], t4) == t5;
    assert Mark(t3, 4) == t4 && g[4] == [2, 3];
    assert Visit(g, 4, t3) == t5;
    assert VisitEach(g, [1, 4], t3) == t5;
    assert Mark(t2, 3) == t3 && g[3] == [1, 4];
  }

  /** On the sample graph the traversal from 0 goes 0, 1, 3, 4, 2. */
  lemma SampleOrder()
    ensures DfsOrder(SampleAdjacency(), 0) == [0, 1, 3, 4, 2]
  {
    var g := SampleAdjacency();
    var t0 := Trace({}, []);
    var t1 := Trace({0}, [0]);
    var t2 := Trace({0, 1}, [0, 1]);
    var t5 := Trace({0, 1, 3, 4, 2}, [0, 1, 3, 4, 2]);
    SampleVisitFromThree();
    assert VisitEach(g, [3], t2) == t5;
    assert VisitEach(g, [0, 3], t2) == t5;
    assert Mark(t1, 1) == t2 && g[1] == [0, 3];
    assert Visit(g, 1, t1) == t5;
    assert VisitEach(g, [2], t5) == t5;
    assert VisitEach(g, [1, 2], t1) == t5;
    assert Mark(t0, 0) == t1 && g[0] == [1, 2];
    assert Visit(g, 0, t0) == t5;
  }

  /**
   * Build the sample graph edge by edge and run both traversals from node 0:
   * the lists come out as drawn, and both traversals give 0, 1, 3, 4, 2.
   */
  method Demo() returns (adjacency: AdjList, recursive: seq<int>, iterative: seq<int>)
    ensures adjacency == SampleAdjacency()
    ensures recursive == [0, 1, 3, 4, 2]
    ensures iterative == [0, 1, 3, 4, 2]
  {
    var g := new Graph();
    g.AddEdge(0, 1);
    g.AddEdge(0, 2);
    g.AddEdge(1, 3);
    g.AddEdge(2, 4);
    g.AddEdge(3, 4);
    SampleAdjacencyBuilt();
    adjacency := g.adj;
    recursive := g.Dfs(0);
    iterative := g.DfsIterative(0);
    SampleOrder();
  }
}
