/**
 * The recursive depth-first traversal as a function of the adjacency lists.
 * A traversal threads a set of visited nodes and the list of nodes in the
 * order they were first reached; `Visit` handles one node, `VisitEach` a list
 * of neighbours left to right.
 */
module DepthFirst {
  import opened Adjacency

  /** The state a traversal threads through its calls. */
  datatype Trace = Trace(visited: set<int>, order: seq<int>)

  /** `t` with `node` marked visited and appended to the order. */
  function Mark(t: Trace, node: int): Trace
  {
    Trace(t.visited + {node}, t.order + [node])
  }

  /**
   * Visit an unvisited node: mark and list it, then, if it has an entry,
   * visit each of its neighbours that is still unvisited when reached.
   * The node is listed right after everything listed before, and nothing
   * listed or visited is ever forgotten.
   */
  function Visit(g: AdjList, node: int, t: Trace): (r: Trace)
    requires node !in t.visited
    ensures t.visited + {node} <= r.visited
    ensures t.order + [node] <= r.order
    decreases |g.Keys - t.visited|, 0
  {
    var t1 := Mark(t, node);
    if node in g then
      assert node in g.Keys - t.visited;
      ShrinkingUnvisited(g.Keys, t.visited, t1.visited);
      VisitEach(g, g[node], t1)
    else
      t1
  }

  /** Visit, left to right, every node of `ns` not yet visited when it is reached. */
  function VisitEach(g: AdjList, ns: seq<int>, t: Trace): (r: Trace)
    ensures t.visited <= r.visited
    ensures t.order <= r.order
    decreases |g.Keys - t.visited|, 1, |ns|
  {
    if ns == [] then
      t
    else
      var t1 := if ns[0] in t.visited then t else Visit(g, ns[0], t);
      assert t.visited <= t1.visited && t.order <= t1.order;
      ShrinkingUnvisited(g.Keys, t.visited, t1.visited);
      VisitEach(g, ns[1..], t1)
  }

  /**
   * Growing the visited set never enlarges the set of unvisited keys, and
   * strictly shrinks it when a key joins the visited set.
   */
  lemma ShrinkingUnvisited(keys: set<int>, before: set<int>, after: set<int>)
    requires before <= after
    ensures |keys - after| <= |keys - before|
    ensures (exists k :: k in keys && k in after && k !in before) ==> |keys - after| < |keys - before|
  {
    var a, b := keys - after, keys - before;
    assert b == a + (b - a);
    assert a * (b - a) == {};
    assert |b| == |a| + |b - a|;
    if k :| k in keys && k in after && k !in before {
      assert k in b - a;
    }
  }

  /** The list of nodes a depth-first traversal from `start` produces. */
  function DfsOrder(g: AdjList, start: int): (r: seq<int>)
    ensures |r| > 0 && r[0] == start
    ensures start !in g ==> r == [start]
  {
    Visit(g, start, Trace({}, [])).order
  }

  /** The nodes of `ns` that are not in `visited`, in their order in `ns`. */
  function Unvisited(ns: seq<int>, visited: set<int>): seq<int>
  {
    if ns == [] then []
    else (if ns[0] in visited then [] else [ns[0]]) + Unvisited(ns[1..], visited)
  }

  /** The elements of a stack (top at the end) in the order pops hand them out. */
  function PopOrder(stack: seq<int>): seq<int>
  {
    if stack == [] then [] else [stack[|stack| - 1]] + PopOrder(stack[..|stack| - 1])
  }

  /** Pushing `x` puts it first in pop order. */
  lemma PopOrderPush(stack: seq<int>, x: int)
    ensures PopOrder(stack + [x]) == [x] + PopOrder(stack)
  {
    assert (stack + [x])[..|stack|] == stack;
  }

  /** `Unvisited` on a suffix, peeled by one element. */
  lemma UnvisitedFrom(ns: seq<int>, i: nat, visited: set<int>)
    requires i < |ns|
    ensures Unvisited(ns[i..], visited) == (if ns[i] in visited then [] else [ns[i]]) + Unvisited(ns[i + 1..], visited)
  {
    assert ns[i..][0] == ns[i] && ns[i..][1..] == ns[i + 1..];
  }

  /**
   * One step of pushing a neighbour list from its end: when the pops of
   * `stack` give the unvisited nodes of `ns[i + 1..]` followed by `rest`,
   * pushing `ns[i]` if it is unvisited makes them give those of `ns[i..]`.
   */
  lemma PushStep(stack: seq<int>, ns: seq<int>, i: nat, visited: set<int>, rest: seq<int>)
    requires i < |ns|
    requires PopOrder(stack) == Unvisited(ns[i + 1..], visited) + rest
    ensures ns[i] !in visited ==> PopOrder(stack + [ns[i]]) == Unvisited(ns[i..], visited) + rest
    ensures ns[i] in visited ==> PopOrder(stack) == Unvisited(ns[i..], visited) + rest
  {
    var later := Unvisited(ns[i + 1..], visited);
    UnvisitedFrom(ns, i, visited);
    if ns[i] !in visited {
      PopOrderPush(stack, ns[i]);
      assert [ns[i]] + (later + rest) == ([ns[i]] + later) + rest;
    } else {
      assert [] + later == later;
    }
  }

  /** Visiting the nodes of `a + b` is visiting those of `a`, then those of `b`. */
  lemma {:induction false} VisitEachConcat(g: AdjList, a: seq<int>, b: seq<int>, t: Trace)
    ensures VisitEach(g, a + b, t) == VisitEach(g, b, VisitEach(g, a, t))
    decreases |a|
  {
    if a == [] {
      assert a + b == b;
    } else {
      assert (a + b)[0] == a[0];
      assert (a + b)[1..] == a[1..] + b;
      var t1 := if a[0] in t.visited then t else Visit(g, a[0], t);
      VisitEachConcat(g, a[1..], b, t1);
    }
  }

  /**
   * Dropping from a list the nodes that were already visited (at any earlier
   * moment) changes nothing: `VisitEach` would skip them anyway.
   */
  lemma {:induction false} VisitEachSkipsSeen(g: AdjList, ns: seq<int>, seen: set<int>, t: Trace)
    requires seen <= t.visited
    ensures VisitEach(g, Unvisited(ns, seen), t) == VisitEach(g, ns, t)
    decreases |ns|
  {
    if ns != [] {
      var t1 := if ns[0] in t.visited then t else Visit(g, ns[0], t);
      VisitEachSkipsSeen(g, ns[1..], seen, t1);
      if ns[0] !in seen {
        var rest := Unvisited(ns[1..], seen);
        assert Unvisited(ns, seen) == [ns[0]] + rest;
        assert ([ns[0]] + rest)[0] == ns[0];
        assert ([ns[0]] + rest)[1..] == rest;
        assert VisitEach(g, [ns[0]] + rest, t) == VisitEach(g, rest, t1);
      } else {
        assert Unvisited(ns, seen) == Unvisited(ns[1..], seen);
      }
    }
  }

  /**
   * Popping an unvisited node off the pending list and replacing it with its
   * neighbours that are unvisited once it is marked has the same overall
   * effect as visiting it recursively.
   */
  lemma VisitEachUnfold(g: AdjList, node: int, rest: seq<int>, t: Trace)
    requires node !in t.visited
    ensures var t1 := Mark(t, node);
            VisitEach(g, [node] + rest, t) == VisitEach(g, Unvisited(Neighbours(g, node), t1.visited) + rest, t1)
  {
    var t1 := Mark(t, node);
    var ns := Neighbours(g, node);
    assert ([node] + rest)[0] == node;
    assert ([node] + rest)[1..] == rest;
    VisitEachConcat(g, Unvisited(ns, t1.visited), rest, t1);
    VisitEachSkipsSeen(g, ns, t1.visited, t1);
  }
}
