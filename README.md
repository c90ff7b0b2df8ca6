# Depth-first search on an adjacency-list graph

This project models the `Graph` class of `dfs.py`. It is an undirected graph kept as a dictionary from each node to the list of its neighbours. Two operations traverse it depth-first from a start node:

- `dfs` recurses through `_dfs_recursive`, threading a shared `visited` set and `result` list through the calls.
- `dfs_iterative` gets the same order with an explicit stack. It pushes each node's unvisited neighbours in reverse, so that the first neighbour is popped next.

The files:

- `adjacency.dfy` (module `Adjacency`): the adjacency map `map<int, seq<int>>`, the neighbour lookup, the closure invariant (every listed neighbour has a list of its own), and `WithEdge`, which states what adding an edge does to the map.
- `depth_first.dfy` (module `DepthFirst`): the recursive traversal as two mutually recursive functions. `Visit` handles one node and `VisitEach` handles a neighbour list, and both thread a `Trace` (visited set and output order). `DfsOrder` is the traversal from a start node. The file also holds the lemmas that relate a pending list of nodes to the explicit stack.
- `dfs_properties.dfy` (module `DfsProperties`): what the traversal promises. The order never repeats a node. It lists exactly the nodes reachable from the start. Right after a node it lists that node's first neighbour that is still unvisited.
- `graph.dfy` (module `GraphDfs`): the `Graph` class. Its `adj` field is updated in place by `AddEdge`. `Dfs`/`DfsRecursive` form a recursive method with a loop over the neighbours. `DfsIterative` is a `while` loop over a stack. Both traversal methods are proved to return `DfsOrder(adj, start)`, so they return the same list. The file ends with the sample graph of the demo and its traversal order.

Termination of the recursion and of the stack loop is measured by the number of keys of the map that are not yet visited; the stack loop adds the stack length as a second component. Neither traversal needs the closure invariant: a node without an entry is simply listed and has no neighbours to explore, as in the source's `if node in self.graph` test. The invariant `Valid()` (every listed neighbour has a list of its own) is kept for its own sake. It records what `add_edge` guarantees about the dictionary, namely that both endpoints get a list.

## Model

| member | source | states |
|---|---|---|
| `Adjacency.WithEdge` | dfs.py:13-26 | after adding {u, v} the keys are the old keys plus u and v; u's list is its old list (empty if u was absent) with v appended, and v's list likewise gains u; for a self-loop u's list gains u twice; every other list is unchanged |
| `Adjacency.WithEdgeKeepsClosed` | dfs.py:19-26 | adding an edge keeps every node named in a neighbour list a key of the map, because both endpoints get a list before the append |
| `GraphDfs.Graph.constructor` | dfs.py:4-11 | a new graph has an empty adjacency map, which is closed |
| `GraphDfs.Graph.AddEdge` | dfs.py:13-26 | the map becomes `WithEdge` of the old map, and the closure invariant is kept |
| `DepthFirst.Visit` | dfs.py:41-67 | visiting an unvisited node marks it and lists it directly after everything listed before; visited nodes and listed nodes are never dropped |
| `DepthFirst.VisitEach` | dfs.py:65-67 | walking a neighbour list never drops a visited or listed node |
| `DepthFirst.DfsOrder` | dfs.py:28-39 | the traversal order starts with the start node, and is exactly `[start]` when the start node has no entry |
| `GraphDfs.Graph.DfsRecursive` | dfs.py:41-67 | the recursive helper returns the visited set and order that `Visit` gives for the same node and state |
| `GraphDfs.Graph.Dfs` | dfs.py:28-39 | returns `DfsOrder(adj, start)`; it starts with `start`, is `[start]` for a node without an entry, has no duplicates, and contains a node exactly when that node is reachable from `start` |
| `DfsProperties.VisitConsistent` | dfs.py:59-61 | if the visited set equals the set of listed nodes and none is listed twice, visiting a node keeps it so |
| `DfsProperties.VisitEachConsistent` | dfs.py:65-67 | the same for walking a neighbour list, which lists a neighbour only when it is not visited |
| `DfsProperties.DfsOrderDistinct` | dfs.py:59-67 | the depth-first order never lists a node twice |
| `DfsProperties.VisitSound` | dfs.py:63-67 | every node that visiting `node` marks is reachable from any source that reaches `node` |
| `DfsProperties.VisitEachSound` | dfs.py:65-67 | every node marked while walking a list of reachable nodes is reachable |
| `DfsProperties.VisitCloses` | dfs.py:63-67 | every node marked by a visit has all its neighbours marked once the visit returns |
| `DfsProperties.VisitEachCloses` | dfs.py:65-67 | after walking a list every node of the list is marked, and every node marked on the way has all its neighbours marked |
| `DfsProperties.DfsOrderReachable` | dfs.py:28-67 | a node is in the depth-first order if and only if it is reachable from the start node by following neighbour lists |
| `DfsProperties.VisitEachListsFirstUnvisited` | dfs.py:65-67 | walking a list lists the first of its not-yet-visited nodes next |
| `DfsProperties.VisitListsFirstUnvisitedNeighbourNext` | dfs.py:60-67 | a visited node is listed next, and directly after it comes its first neighbour that is still unvisited |
| `DepthFirst.VisitEachConcat` | dfs.py:65-67 | walking `a + b` is walking `a` and then `b` from the resulting state |
| `DepthFirst.VisitEachSkipsSeen` | dfs.py:89-91 | leaving out neighbours that were already visited when they would be pushed does not change the outcome |
| `DepthFirst.VisitEachUnfold` | dfs.py:79-91 | popping an unvisited node and replacing it by its unvisited neighbours in list order has the same outcome as visiting it recursively |
| `DepthFirst.PushStep` | dfs.py:89-91 | one step of the reversed push loop: if the pops so far give the unvisited nodes after position i followed by the older entries, pushing the i-th neighbour when it is unvisited (and doing nothing otherwise) makes them give the unvisited nodes from position i on |
| `GraphDfs.PushUnvisitedReversed` | dfs.py:87-91 | pushing the unvisited neighbours from last to first only adds to the stack, and the pops then hand them out in list order before the older entries |
| `GraphDfs.Graph.DfsIterative` | dfs.py:69-93 | the stack-based traversal returns `DfsOrder(adj, start)`, the same list as the recursive one, as the comment at line 88 intends; it starts with `start` and has no duplicates |
| `GraphDfs.SampleAdjacencyBuilt` | dfs.py:102-104 | adding the edges (0,1), (0,2), (1,3), (2,4), (3,4) in that order to an empty graph gives {0:[1,2], 1:[0,3], 2:[0,4], 3:[1,4], 4:[2,3]} |
| `GraphDfs.SampleOrder` | graph_text.py:27 | on that graph the traversal from 0 is 0, 1, 3, 4, 2 |
| `GraphDfs.Demo` | dfs.py:97-112 | building the sample graph with `AddEdge` gives the lists above, and both `Dfs(0)` and `DfsIterative(0)` return [0, 1, 3, 4, 2] |

## Left out

- Node labels are `int`. The source accepts any hashable value, but the traversal only uses labels for membership and equality tests.
- The Python dictionary and its lists are modelled as a `map` of `seq` values that `AddEdge` reassigns. The source appends to a list object in place (dfs.py:21, dfs.py:26). The traversals only test key membership and read one list at a time, so they never observe the difference. Two things a caller of the public `graph` attribute could observe are not modelled. One is aliasing: a list fetched earlier sees later appends. The other is the dictionary's key insertion order, which a `map` does not have.
- The `visited` set and `result` list, which `_dfs_recursive` mutates through shared references, are passed into `DfsRecursive` and handed back as results.
- The inner loop of `dfs_iterative` (dfs.py:89-91) is the separate method `PushUnvisitedReversed`, which the outer loop calls. It does the same pushes in the same order.
- Python's recursion limit is not modelled. For a long enough path `dfs` raises `RecursionError` while `dfs_iterative` does not; here both return the order.
- `__main__` in dfs.py (lines 97-119) prints its results. `Demo` returns them instead.
- graph_text.py only prints fixed text. Its picture and order serve as expected values (`SampleAdjacencyBuilt`, `SampleOrder`).
- lecture.py (the ball physics and its text and pygame front ends) is not part of this model. It is floating-point arithmetic, drawing, event handling and random spawning, and a model over real numbers would not match its behaviour.
- class.py (spreadsheet generation with openpyxl and the float deal-value report) is not part of this model. It is library calls, file output and currency formatting.
