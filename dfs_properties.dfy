/**
 * What the depth-first order promises: it lists each node at most once, it
 * lists exactly the nodes reachable from the start by following neighbour
 * lists, and right after a node it lists that node's first neighbour that is
 * still unvisited.
 */
module DfsProperties {
  import opened Adjacency
  import opened DepthFirst

  /** No element occurs twice. */
  ghost predicate Distinct(s: seq<int>)
  {
    forall i, j :: 0 <= i < j < |s| ==> s[i] != s[j]
  }

  /** The visited set is exactly the set of listed nodes, and none is listed twice. */
  ghost predicate Consistent(t: Trace)
  {
    (forall x :: x in t.visited <==> x in t.order) && Distinct(t.order)
  }

  /** A non-empty walk along neighbour lists. */
  ghost predicate IsPath(g: AdjList, p: seq<int>)
  {
    |p| > 0 && forall i :: 0 < i < |p| ==> p[i] in Neighbours(g, p[i - 1])
  }

  /** `target` can be reached from `source` by following neighbour lists (in zero or more steps). */
  ghost predicate Reachable(g: AdjList, source: int, target: int)
  {
    exists p :: IsPath(g, p) && p[0] == source && p[|p| - 1] == target
  }

  /** Every neighbour of `x` is in `s`. */
  ghost predicate NeighboursIn(g: AdjList, x: int, s: set<int>)
  {
    forall y :: y in Neighbours(g, x) ==> y in s
  }

  // ---------------------------------------------------------------------
  // No node is listed twice.

  lemma {:induction false} VisitConsistent(g: AdjList, node: int, t: Trace)
    requires node !in t.visited && Consistent(t)
    ensures Consistent(Visit(g, node, t))
    decreases |g.Keys - t.visited|, 0
  {
    var t1 := Mark(t, node);
    assert Distinct(t1.order) by {
      forall i, j | 0 <= i < j < |t1.order| ensures t1.order[i] != t1.order[j] {
        if j == |t.order| {
          assert t1.order[i] == t.order[i];
        }
      }
    }
    if node in g {
      assert node in g.Keys - t.visited;
      ShrinkingUnvisited(g.Keys, t.visited, t1.visited);
      VisitEachConsistent(g, g[node], t1);
    }
  }

  lemma {:induction false} VisitEachConsistent(g: AdjList, ns: seq<int>, t: Trace)
    requires Consistent(t)
    ensures Consistent(VisitEach(g, ns, t))
    decreases |g.Keys - t.visited|, 1, |ns|
  {
    if ns != [] {
      var t1 := if ns[0] in t.visited then t else Visit(g, ns[0], t);
      if ns[0] !in t.visited {
        VisitConsistent(g, ns[0], t);
      }
      ShrinkingUnvisited(g.Keys, t.visited, t1.visited);
      VisitEachConsistent(g, ns[1..], t1);
    }
  }

  /** The depth-first order never repeats a node. */
  lemma DfsOrderDistinct(g: AdjList, start: int)
    ensures Distinct(DfsOrder(g, start))
  {
    VisitConsistent(g, start, Trace({}, []));
  }

  // ---------------------------------------------------------------------
  // Only reachable nodes are listed.

  lemma ReachableStep(g: AdjList, source: int, mid: int, target: int)
    requires Reachable(g, source, mid) && target in Neighbours(g, mid)
    ensures Reachable(g, source, target)
  {
    var p :| IsPath(g, p) && p[0] == source && p[|p| - 1] == mid;
    var q := p + [target];
    assert IsPath(g, q) by {
      forall i | 0 < i < |q| ensures q[i] in Neighbours(g, q[i - 1]) {
        if i < |p| {
          assert q[i] == p[i] && q[i - 1] == p[i - 1];
        }
      }
    }
    assert q[0] == source && q[|q| - 1] == target;
  }

  lemma {:induction false} VisitSound(g: AdjList, node: int, t: Trace, source: int)
    requires node !in t.visited && Reachable(g, source, node)
    ensures forall x :: x in Visit(g, node, t).visited - t.visited ==> Reachable(g, source, x)
    decreases |g.Keys - t.visited|, 0
  {
    var t1 := Mark(t, node);
    if node in g {
      forall y | y in g[node] ensures Reachable(g, source, y) {
        ReachableStep(g, source, node, y);
      }
      assert node in g.Keys - t.visited;
      ShrinkingUnvisited(g.Keys, t.visited, t1.visited);
      VisitEachSound(g, g[node], t1, source);
    }
  }

  lemma {:induction false} VisitEachSound(g: AdjList, ns: seq<int>, t: Trace, source: int)
    requires forall n :: n in ns ==> Reachable(g, source, n)
    ensures forall x :: x in VisitEach(g, ns, t).visited - t.visited ==> Reachable(g, source, x)
    decreases |g.Keys - t.visited|, 1, |ns|
  {
    if ns != [] {
      var t1 := if ns[0] in t.visited then t else Visit(g, ns[0], t);
      if ns[0] !in t.visited {
        VisitSound(g, ns[0], t, source);
      }
      ShrinkingUnvisited(g.Keys, t.visited, t1.visited);
      VisitEachSound(g, ns[1..], t1, source);
    }
  }

  // ---------------------------------------------------------------------
  // Every reachable node is listed.

  /**
   * Once `Visit` returns, every node it marked has all its neighbours marked:
   * the nodes it adds are closed under the neighbour relation.
   */
  lemma {:induction false} VisitCloses(g: AdjList, node: int, t: Trace)
    requires node !in t.visited
    ensures forall x :: x in Visit(g, node, t).visited - t.visited ==> NeighboursIn(g, x, Visit(g, node, t).visited)
    decreases |g.Keys - t.visited|, 0
  {
    var t1 := Mark(t, node);
    if node in g {
      assert node in g.Keys - t.visited;
      ShrinkingUnvisited(g.Keys, t.visited, t1.visited);
      VisitEachCloses(g, g[node], t1);
    }
  }

  lemma {:induction false} VisitEachCloses(g: AdjList, ns: seq<int>, t: Trace)
    ensures forall n :: n in ns ==> n in VisitEach(g, ns, t).visited
    ensures forall x :: x in VisitEach(g, ns, t).visited - t.visited ==> NeighboursIn(g, x, VisitEach(g, ns, t).visited)
    decreases |g.Keys - t.visited|, 1, |ns|
  {
    if ns != [] {
      var t1 := if ns[0] in t.visited then t else Visit(g, ns[0], t);
      if ns[0] !in t.visited {
        VisitCloses(g, ns[0], t);
      }
      ShrinkingUnvisited(g.Keys, t.visited, t1.visited);
      VisitEachCloses(g, ns[1..], t1);
      var r := VisitEach(g, ns, t);
      assert r == VisitEach(g, ns[1..], t1);
      forall x | x in t1.visited - t.visited ensures NeighboursIn(g, x, r.visited) {
        assert NeighboursIn(g, x, t1.visited);
      }
      forall n | n in ns ensures n in r.visited {
        if n != ns[0] {
          assert n in ns[1..];
        }
      }
    }
  }

  /** A walk that starts in a neighbour-closed set never leaves it. */
  lemma {:induction false} PathStaysInside(g: AdjList, p: seq<int>, s: set<int>)
    requires IsPath(g, p) && p[0] in s
    requires forall x :: x in s ==> NeighboursIn(g, x, s)
    ensures p[|p| - 1] in s
    decreases |p|
  {
    if |p| > 1 {
      var q := p[..|p| - 1];
      assert IsPath(g, q) by {
        forall i | 0 < i < |q| ensures q[i] in Neighbours(g, q[i - 1]) {
          assert q[i] == p[i] && q[i - 1] == p[i - 1];
        }
      }
      PathStaysInside(g, q, s);
      var prev, last := p[|p| - 2], p[|p| - 1];
      assert last in Neighbours(g, prev) by {
        var i := |p| - 1;
        assert p[i] in Neighbours(g, p[i - 1]);
      }
      assert prev == q[|q| - 1];
      assert NeighboursIn(g, prev, s);
    }
  }

  /** The depth-first order lists exactly the nodes reachable from the start. */
  lemma DfsOrderReachable(g: AdjList, start: int)
    ensures forall x :: x in DfsOrder(g, start) <==> Reachable(g, start, x)
  {
    var t0 := Trace({}, []);
    var r := Visit(g, start, t0);
    VisitConsistent(g, start, t0);
    VisitCloses(g, start, t0);
    assert IsPath(g, [start]);
    VisitSound(g, start, t0, start);
    forall x | Reachable(g, start, x) ensures x in r.order {
      var p :| IsPath(g, p) && p[0] == start && p[|p| - 1] == x;
      PathStaysInside(g, p, r.visited);
    }
  }

  // ---------------------------------------------------------------------
  // Neighbours are explored in list order.

  lemma {:induction false} VisitEachListsFirstUnvisited(g: AdjList, ns: seq<int>, t: Trace)
    requires Unvisited(ns, t.visited) != []
    ensures |t.order| < |VisitEach(g, ns, t).order|
    ensures VisitEach(g, ns, t).order[|t.order|] == Unvisited(ns, t.visited)[0]
    decreases |ns|
  {
    if ns[0] in t.visited {
      assert Unvisited(ns, t.visited) == Unvisited(ns[1..], t.visited);
      VisitEachListsFirstUnvisited(g, ns[1..], t);
    } else {
      var t1 := Visit(g, ns[0], t);
      assert VisitEach(g, ns, t) == VisitEach(g, ns[1..], t1);
      assert t1.order[|t.order|] == ns[0];
    }
  }

  /**
   * When an unvisited node is visited, it is listed next, and directly after
   * it comes the first of its neighbours that is not yet visited (if any).
   */
  lemma VisitListsFirstUnvisitedNeighbourNext(g: AdjList, node: int, t: Trace)
    requires node !in t.visited
    requires Unvisited(Neighbours(g, node), t.visited + {node}) != []
    ensures |t.order| + 1 < |Visit(g, node, t).order|
    ensures Visit(g, node, t).order[|t.order|] == node
    ensures Visit(g, node, t).order[|t.order| + 1] == Unvisited(Neighbours(g, node), t.visited + {node})[0]
  {
    VisitEachListsFirstUnvisited(g, Neighbours(g, node), Mark(t, node));
  }
}
