# Equations: graph and tuple core, modelled in Dafny

Equations builds the systems of differential equations of compartmental epidemic
models (SIR and its relatives) on a contact graph. A vertex of the graph is an
individual, and a tuple of vertices with states stands for one equation. This
project models the integer and list code the system is built on, and proves
properties of it:

- **Data structures.** `Rand` holds the argument checks of uniform and discrete,
  the Fisher–Yates shuffle, permutation, and the binary-heap MinPriorityQueue.
  `BinaryTrees` is the unbalanced binary search tree.
- **Graph representations.**
  - `ListGraph`: the adjacency-list Graph.
  - `MatrixGraph`: the adjacency-matrix Graph with a transmission matrix.
  - `MainGraph`: the adjacency-matrix Graph with splicing and bridge removal.
  - `Components` and `CutVertices`: the depth-first searches these share, for
    connected components and for Tarjan's cut vertices.
  - `Vertices`: the Vertex class.
- **Graph builders.**
  - `Generators`: the named and random generators.
  - `PruferTree`: the random tree from a Prüfer sequence.
  - `GraphByName`: getGraph, which picks a generator by name.
  - `GraphUtils`: the walk-count table, getListPerm and powerSet.
  - `PathFinding`: the all-simple-paths search.
- **Tuple enumeration.**
  - `VertexStates`: the validity predicates on states, locations and connectivity.
  - `Tuples`, `Required` and `ModelTuple`: the tuple code of the root package and
    of the model package.
  - `Necessary`: the singles, pairs and triples search.
  - `CompartmentModel` and `ModelParameters`: the model matrices, transitions and
    the filter graph.

Code that changes state in place is modelled in the same form. Objects whose
fields are updated become classes with `modifies` clauses. Arrays stay arrays,
and loops stay loops with invariants. Each such method is proved against a
specification function, and the lemmas beside that function state what the
source promises. Pure recursion becomes functions and lemmas.

Java `assert`s on arguments become `requires`. Where a random draw of the
generator itself can trip an assert, or an exception is thrown and caught, the
model returns a `Result` with the kind of fault. Every random draw is a
nondeterministic choice in its documented range, so each contract holds for
every outcome.

## Model

| member | source | states |
|---|---|---|
| Rand.Uniform | src/io/github/ethankelly/graph/Rand.java:70-73 | fails with IllegalArgument exactly when n <= 0; otherwise the value lies in [0, n) |
| Rand.UniformRange | src/io/github/ethankelly/graph/Rand.java:126-131 | fails exactly when b <= a or the width reaches Integer.MAX_VALUE; otherwise a <= value < b |
| Rand.SumPrefixBound | src/io/github/ethankelly/graph/Rand.java:330-337 | every prefix sum of non-negative frequencies lies between 0 and the total, so the draw loop's running sum stays in range |
| Rand.Discrete | src/io/github/ethankelly/graph/Rand.java:318-339 | fails exactly on a negative entry, an all-zero array or a sum reaching Integer.MAX_VALUE; otherwise the index returned has a positive frequency |
| Rand.Shuffle | src/io/github/ethankelly/graph/Rand.java:474-484 | the slice [lo, hi) is permuted (same multiset) and every cell outside it is unchanged |
| Rand.SwapInRange | src/io/github/ethankelly/graph/Rand.java:479-482 | one exchange a[i] <-> a[r] with r in [i, hi): exactly those two cells change, the slice keeps its multiset |
| Rand.SwapKeepsSlice | src/io/github/ethankelly/graph/Rand.java:478-483 | exchanging two cells inside [lo, hi) keeps the slice's multiset and the cells outside it |
| Rand.Permutation | src/io/github/ethankelly/graph/Rand.java:494-501 | fails exactly when n < 0; otherwise a fresh array of length n holding 0 .. n-1 each once (multiset of the range) |
| Rand.PermutationCoversRange | src/io/github/ethankelly/graph/Rand.java:494-501 | a permutation of 0 .. n-1 has length n and holds exactly the values 0 .. n-1 |
| Rand.SwapKeeps | src/io/github/ethankelly/graph/Rand.java:724-728 | exchanging two heap slots keeps the keys of pq[1..n], the slots outside, and the heap shape |
| Rand.RootIsMin | src/io/github/ethankelly/graph/Rand.java:641-644 | in a heap-ordered pq[1..n] the root is no greater than any key |
| Rand.MinAtRoot | src/io/github/ethankelly/graph/Rand.java:641-644 | the root is a smallest element of the multiset of keys |
| Rand.SwimStep | src/io/github/ethankelly/graph/Rand.java:694-699 | one exchange of swim moves the single order defect from k to k/2 |
| Rand.SinkStep | src/io/github/ethankelly/graph/Rand.java:701-709 | one exchange of sink with the smaller child moves the single order defect from k down to that child |
| Rand.InsertStart | src/io/github/ethankelly/graph/Rand.java:663-669 | storing x in slot n+1 adds x to the keys and leaves only the edge into the new slot out of order |
| Rand.DelMinStart | src/io/github/ethankelly/graph/Rand.java:679-683 | exchanging the root with the last key leaves only the edges out of the root out of order, and the old root outside 1..n-1 |
| Rand.RemoveRootEnd | src/io/github/ethankelly/graph/Rand.java:682-684 | after sink, nulling the freed slot gives a heap of n-1 keys with the same keys and shape |
| Rand.OrderedFromIff | src/io/github/ethankelly/graph/Rand.java:743-750 | isMinHeapOrdered(k) holds exactly when every parent/child pair in the subtree rooted at k is ordered |
| Rand.OrderedFromRoot | src/io/github/ethankelly/graph/Rand.java:739 | isMinHeapOrdered(1) holds exactly when the whole heap is ordered |
| Rand.MinPQ.constructor | src/io/github/ethankelly/graph/Rand.java:575-578 | an empty queue over initCapacity + 1 null slots |
| Rand.MinPQ.Min | src/io/github/ethankelly/graph/Rand.java:641-644 | fails the underflow assertion exactly on an empty queue; otherwise returns a key in the queue no greater than any other |
| Rand.MinPQ.Resize | src/io/github/ethankelly/graph/Rand.java:651-656 | the keys pq[1..n] move unchanged into a fresh array of the requested capacity |
| Rand.MinPQ.Swim | src/io/github/ethankelly/graph/Rand.java:694-699 | from a heap whose only defect is the edge into k, restores heap order without changing the keys or the slots outside 1..n |
| Rand.MinPQ.Sink | src/io/github/ethankelly/graph/Rand.java:701-709 | from a heap whose only defect is below k, restores heap order without changing the keys or the slots outside 1..n |
| Rand.MinPQ.Exch | src/io/github/ethankelly/graph/Rand.java:724-728 | exchanges exactly slots i and j |
| Rand.MinPQ.SmallerChild | src/io/github/ethankelly/graph/Rand.java:703-704 | picks a child of k holding a smallest key among k's children (the right one only when strictly smaller) |
| Rand.MinPQ.Insert | src/io/github/ethankelly/graph/Rand.java:663-671 | n grows by one, the keys gain x, and the heap invariant (shape, order, null slots) holds afterwards |
| Rand.MinPQ.DelMin | src/io/github/ethankelly/graph/Rand.java:679-688 | fails the underflow assertion exactly on an empty queue; otherwise returns a smallest key, removes one copy of it, lowers n by one and keeps the heap invariant |
| Rand.MinPQ.Store | src/io/github/ethankelly/graph/Rand.java:668-684 | the single slot writes pq[++n] = x and pq[n + 1] = null: exactly slot i takes the new value |
| Rand.MinPQ.RemoveRoot | src/io/github/ethankelly/graph/Rand.java:682-684 | exchange, sink and nulling together remove one copy of the old root and keep the heap invariant |
| Rand.MinPQ.DetachRoot | src/io/github/ethankelly/graph/Rand.java:682 | the last key moves to the root, n drops by one, and the keys of 1..n are the old keys less the old root |
| Rand.MinPQ.IsMinHeap | src/io/github/ethankelly/graph/Rand.java:731-740 | returns true exactly when slot 0 and the slots after n are null, 1..n hold keys and they are heap ordered |
| Rand.HeapIterator.constructor | src/io/github/ethankelly/graph/Rand.java:766-771 | the copy is a fresh valid queue holding exactly the queue's keys |
| Rand.HeapIterator.HasNext | src/io/github/ethankelly/graph/Rand.java:773-775 | true exactly when keys remain in the copy |
| Rand.HeapIterator.Next | src/io/github/ethankelly/graph/Rand.java:781-784 | NoSuchElement exactly when drained; otherwise returns a remaining key no greater than any key left, so keys come out in ascending order |
| BinaryTrees.AddRecursive | src/io/github/ethankelly/graph/decomposition/BinaryTree.java:65-81 | the values afterwards are the old values plus the new one; search order is kept; adding a value already present returns the tree unchanged |
| BinaryTrees.SizeIsCount | src/io/github/ethankelly/graph/decomposition/BinaryTree.java:91-93 | in a search tree the node count equals the number of distinct values |
| BinaryTrees.SizeRecursive | src/io/github/ethankelly/graph/decomposition/BinaryTree.java:91-93 | getSizeRecursive counts the nodes; SizeIsCount and AddSize state what that count is |
| BinaryTrees.AddSize | src/io/github/ethankelly/graph/decomposition/BinaryTree.java:60-62 | adding a new value raises the size by one; adding a present value leaves it |
| BinaryTrees.ContainsRecursive | src/io/github/ethankelly/graph/decomposition/BinaryTree.java:99-111 | in a search tree the search answers true exactly when the value is stored |
| BinaryTrees.FindSmallestValue | src/io/github/ethankelly/graph/decomposition/BinaryTree.java:152-154 | returns a stored value, and in a search tree one no greater than any stored value |
| BinaryTrees.DeleteRecursive | src/io/github/ethankelly/graph/decomposition/BinaryTree.java:117-150 | in a search tree, removes exactly the value and keeps search order; an absent value leaves the tree unchanged |
| BinaryTrees.DeleteTakesSuccessor | src/io/github/ethankelly/graph/decomposition/BinaryTree.java:136-141 | deleting a node with two children leaves in its place the smallest value of its right subtree, the in-order successor |
| BinaryTrees.InOrderSorted | src/io/github/ethankelly/graph/decomposition/BinaryTree.java:156-162 | the in-order visit of a search tree is strictly ascending and lists exactly the stored values |
| BinaryTrees.TraverseInOrder | src/io/github/ethankelly/graph/decomposition/BinaryTree.java:156-162 | the visit order left subtree, node, right subtree (the printing is left out); InOrderSorted states that on a search tree it is the stored values in ascending order |
| BinaryTrees.BinaryTree.constructor | src/io/github/ethankelly/graph/decomposition/BinaryTree.java:9-11 | a new tree has a null root |
| BinaryTrees.BinaryTree.Add | src/io/github/ethankelly/graph/decomposition/BinaryTree.java:60-62 | the root becomes addRecursive of the old root: the value is stored, the rest stays, search order holds |
| BinaryTrees.BinaryTree.Delete | src/io/github/ethankelly/graph/decomposition/BinaryTree.java:113-115 | the root becomes deleteRecursive of the old root: the value is gone, the rest stays, search order holds |
| BinaryTrees.BinaryTree.IsEmpty | src/io/github/ethankelly/graph/decomposition/BinaryTree.java:83-85 | true exactly when no value is stored |
| BinaryTrees.BinaryTree.GetSize | src/io/github/ethankelly/graph/decomposition/BinaryTree.java:87-89 | the number of values stored |
| BinaryTrees.BinaryTree.Contains | src/io/github/ethankelly/graph/decomposition/BinaryTree.java:95-97 | true exactly when the value is stored |
| Vertices.Vertex.constructor | src/io/github/ethankelly/graph/Vertex.java:9-11 | the vertex holds the given location |
| Vertices.Vertex.SetLocation | src/io/github/ethankelly/graph/Vertex.java:17-19 | only the location changes, to the new value |
| Vertices.Vertex.CompareTo | src/io/github/ethankelly/graph/Vertex.java:59-75 | returns -1, 0 or +1, and -1 exactly when this location is smaller, +1 exactly when it is larger |
| Vertices.ComparableContract | src/io/github/ethankelly/graph/Vertex.java:27-75 | equals is an equivalence that hashCode respects; compareTo is 0 exactly on equal vertices, antisymmetric and transitive, as hash maps and sorts of vertices need |
| Vertices.Vertex.Equals | src/io/github/ethankelly/graph/Vertex.java:27-34 | two vertices are equal when they are the same object or share a location; ComparableContract states it is an equivalence tied to compareTo |
| Vertices.Vertex.HashCode | src/io/github/ethankelly/graph/Vertex.java:45-48 | the hash is the location; ComparableContract states equal vertices hash alike |
| CutVertices.FindCutVertices | src/io/github/ethankelly/Graph.java:110-141 | the search marks u and never unmarks a vertex, leaves the parents of already visited vertices alone, advances the clock, and on symmetric lists marks as cut vertices only vertices with two different neighbours |
| CutVertices.MarkIfCut | src/io/github/ethankelly/Graph.java:129-135 | after the child's search, low[u] becomes the smaller of low[u] and low[v]; u becomes a cut vertex when it is the root with more than one child or when low[v] >= disc[u]; no other cell changes, and on symmetric lists a marked vertex has two different neighbours |
| CutVertices.GetCutVertices | src/io/github/ethankelly/Graph.java:152-177 | the reported cut vertices are vertices of the graph in strictly ascending order, each (on symmetric lists) with two different neighbours |
| MatrixGraph.Graph.constructor | src/io/github/ethankelly/Graph.java:43-48 | an n x n all-false adjacency matrix, an all-zero transmission matrix and no edges |
| MatrixGraph.Graph.AddEdge | src/io/github/ethankelly/Graph.java:185-195 | both adjacency cells true, both transmission cells 1, every other cell unchanged, one more edge |
| MatrixGraph.Graph.IsEdge | src/io/github/ethankelly/Graph.java:260-262 | an edge exists when either of the two cells is set; AddEdge and RemoveEdge state their effect through the cells it reads |
| MatrixGraph.Graph.RemoveEdge | src/io/github/ethankelly/Graph.java:204-213 | both adjacency cells false, both transmission cells 0, every other cell unchanged, and numEdges unchanged |
| MatrixGraph.Graph.GetAdjacencyList | src/io/github/ethankelly/Graph.java:286-303 | row i lists, in ascending order, exactly the j with adjMatrix[i][j] |
| MatrixGraph.Graph.GetCutVertices | src/io/github/ethankelly/Graph.java:152-177 | ascending vertices of the graph, each with two different neighbours |
| ListGraph.RemoveFirst | src/io/github/ethankelly/graph/Graph.java:267-268 | LinkedList.remove: an absent value changes nothing; otherwise the list loses one entry, only the value's first copy |
| ListGraph.AdjacentWithEdge | src/io/github/ethankelly/graph/Graph.java:238-246 | after addEdge(v, w) the two are adjacent and no other pair changes adjacency |
| ListGraph.RemoveUndoesAdd | src/io/github/ethankelly/graph/Graph.java:264-272 | removeEdge(v, w) right after addEdge(v, w) restores the lists exactly |
| ListGraph.RemoveEdgeUnlinks | src/io/github/ethankelly/graph/Graph.java:264-272 | on lists without repeats, removeEdge leaves v and w non-adjacent, changes no other pair and keeps the lists free of repeats |
| ListGraph.EdgeMatrix | src/io/github/ethankelly/graph/Graph.java:349-351 | hasEdge as a matrix: symmetric, and true exactly where either list names the other vertex |
| ListGraph.CloneAsWrittenLosesEdge | src/io/github/ethankelly/graph/Graph.java:409-414 | as written, cloning the path 0-1-2 drops edge 1-2 and creates edge 0-2, because indexOf finds the first equal list |
| ListGraph.ClonedListsAsWritten | src/io/github/ethankelly/graph/Graph.java:409-414 | the lists of clone() as written: as many as the original has, each one of the original's lists |
| ListGraph.ClonedAsWrittenInRange | src/io/github/ethankelly/graph/Graph.java:409-414 | the lists of clone() as written name only vertices of the graph |
| ListGraph.ClonedPrefixOnDistinct | src/io/github/ethankelly/graph/Graph.java:409-414 | when no two lists are equal, the first k steps of the clone loop as written leave the first k lists in place |
| ListGraph.CloneAsWrittenOnDistinct | src/io/github/ethankelly/graph/Graph.java:409-414 | when no two lists are equal, clone() as written copies the lists exactly, so adjacency is the same |
| ListGraph.AppendAsWrittenBreaksRemoveEdge | src/io/github/ethankelly/graph/Graph.java:285-291 | as written, appendVertices(0) on the edge 0-1 adds each edge twice, so a later removeEdge(0, 1) leaves 0 and 1 adjacent |
| ListGraph.CopyOnePair | src/io/github/ethankelly/graph/Graph.java:289 | copying a not yet copied pair i < j adds exactly that edge and keeps the lists free of repeats |
| ListGraph.CopyPairsOnce | src/io/github/ethankelly/graph/Graph.java:285-291 | the double loop copying each pair once yields exactly the old edges among the old vertices, with no repeats |
| ListGraph.AppendedKeepsEdges | src/io/github/ethankelly/graph/Graph.java:279-296 | as intended, each pair copied once: the appended graph has n + k vertices, no repeated entries and the same edges, none at a new vertex |
| ListGraph.CopyPairsBoth | src/io/github/ethankelly/graph/Graph.java:285-291 | the double loop as written, copying every ordered pair, yields exactly the old edges among the old vertices |
| ListGraph.AppendedAsWrittenKeepsEdges | src/io/github/ethankelly/graph/Graph.java:279-296 | appendVertices as written gives n + k lists in range whose adjacency is exactly the old edges, none at a new vertex |
| ListGraph.Graph.constructor | src/io/github/ethankelly/graph/Graph.java:40-45 | n empty neighbour lists, no edges, time 0 |
| ListGraph.Graph.AddEdge | src/io/github/ethankelly/graph/Graph.java:238-246 | asserts v != w; w and v go to the front of each other's lists, the pair is adjacent both ways, one more edge |
| ListGraph.Graph.HasEdge | src/io/github/ethankelly/graph/Graph.java:349-356 | an edge exists when either list names the other vertex; AddEdge, RemoveEdge and the clone lemmas state their effect through it |
| ListGraph.Graph.RemoveEdge | src/io/github/ethankelly/graph/Graph.java:264-272 | no change without an edge; otherwise both lists lose the other vertex and numEdges drops by one |
| ListGraph.Graph.GetConnectedComponents | src/io/github/ethankelly/graph/Graph.java:164-175 | the components of the hasEdge relation: every vertex in exactly one non-empty component and no edge leaving a component |
| ListGraph.Graph.GetCutVertices | src/io/github/ethankelly/graph/Graph.java:206-230 | ascending vertices of the graph, each (on symmetric lists) with two different neighbours |
| ListGraph.Graph.AppendVertices | src/io/github/ethankelly/graph/Graph.java:279-296 | as written: the new lists are those of addEdge(i, j) for every ordered pair with hasEdge(i, j), so every edge is listed twice; there are n + k vertices, adjacent exactly where old ones were; numEdges and name unchanged |
| ListGraph.Graph.SetName | src/io/github/ethankelly/graph/Graph.java:379-382 | the name becomes the given one |
| ListGraph.Graph.Clone | src/io/github/ethankelly/graph/Graph.java:401-418 | as written: a fresh graph that equals the original (vertex count, edge count, name), with the same time, whose lists are those of the loop that places each at indexOf of the list |
| ListGraph.Graph.Equals | src/io/github/ethankelly/graph/Graph.java:420-429 | equal graphs have the same vertex count, edge count and name (the lists are not compared); Clone and CloneIntended promise this of the copy |
| ListGraph.Graph.CloneIntended | src/io/github/ethankelly/graph/Graph.java:401-418 | as intended: a fresh graph equal to the original, with the same lists, so the same edges |
| ListGraph.CloneThenRename | src/io/github/ethankelly/graph/Graph.java:421-428 | a renamed clone (as written) equals the original exactly when the new name is the old one, and the original keeps its name |
| Components.DfsFrom | src/io/github/ethankelly/graph/Graph.java:145-156 | the search from v lists v first, then every newly reached vertex once; each is reachable from v and the visited set ends closed under E |
| Components.DfsLoop | src/io/github/ethankelly/graph/Graph.java:151-154 | the loop from candidate i visits every successor w >= i of v, lists only new vertices, each once and reachable from v |
| Components.ComponentsOf | src/io/github/ethankelly/graph/Graph.java:164-175 | every listed vertex is a vertex of the graph |
| Components.ComponentsFromPartition | src/io/github/ethankelly/graph/Graph.java:168-173 | the components found from v on hold each unvisited vertex exactly once and none is empty |
| Components.ComponentsPartition | src/io/github/ethankelly/graph/Graph.java:164-175 | the components hold every vertex 0 .. n-1 exactly once, and none is empty |
| Components.ComponentsFromClosed | src/io/github/ethankelly/graph/Graph.java:168-173 | for a symmetric relation no edge leaves a component found from v on |
| Components.ComponentsClosed | src/io/github/ethankelly/graph/Graph.java:164-175 | for a symmetric relation no edge leaves a component |
| Components.ComponentsFromConnected | src/io/github/ethankelly/graph/Graph.java:168-173 | each component is reachable from its first vertex |
| Components.ComponentsAreConnectedComponents | src/io/github/ethankelly/graph/Graph.java:164-175 | for a symmetric relation the lists are exactly the connected components: reachable from their first vertex and closed under edges |
| Components.SingleComponentIffConnected | src/io/github/ethankelly/graph/Graph.java:164-175 | there is exactly one component exactly when every vertex is reachable from vertex 0 |
| Components.IsolatedZeroSplits | src/io/github/ethankelly/graph/Graph.java:164-175 | with two or more vertices, a vertex 0 without edges means more than one component |
| Components.TwoComponents | src/io/github/ethankelly/graph/Graph.java:164-175 | a closed set holding 0 and the rest reachable from the first vertex outside it give exactly those two components |
| Components.Dfs | src/io/github/ethankelly/graph/Graph.java:145-156 | the imperative search over a boolean array yields the list and visited set of the specification search |
| Components.ConnectedComponents | src/io/github/ethankelly/graph/Graph.java:164-175 | the imperative outer loop yields exactly the specification's components |
| MainGraph.Empty | src/main/io/github/ethankelly/Graph.java:42-46 | a new graph of n vertices has n x n matrices with no edge, all-zero transmission cells and no edges counted |
| MainGraph.Added | src/main/io/github/ethankelly/Graph.java:273-283 | addEdge makes (i, j) an edge, sets both transmission cells to 1, counts one more edge and leaves every other cell as it was |
| MainGraph.Removed | src/main/io/github/ethankelly/Graph.java:291-300 | removeEdge makes (i, j) a non-edge, sets both transmission cells to 0, leaves the edge counter and every other cell as they were |
| MainGraph.RestorePair | src/main/io/github/ethankelly/Graph.java:306-308 | removing an edge and adding it back restores the adjacency matrix |
| MainGraph.AddedTimes | src/main/io/github/ethankelly/Graph.java:309 | addEdge repeated k times adds k to the edge counter and keeps the shape |
| MainGraph.BridgeStep | src/main/io/github/ethankelly/Graph.java:305-309 | one pass of the removeBridges loop never lowers the edge counter and keeps the matrix shape |
| MainGraph.BridgesFrom | src/main/io/github/ethankelly/Graph.java:304-311 | the removeBridges loop as written keeps the matrix shape and never lowers the edge counter |
| MainGraph.BridgesRemovedAsWritten | src/main/io/github/ethankelly/Graph.java:302-312 | removeBridges as written keeps the matrix shape |
| MainGraph.BridgesFromRecounted | src/main/io/github/ethankelly/Graph.java:304-311 | the removeBridges loop with a fresh count per edge keeps the matrix shape and never lowers the edge counter |
| MainGraph.BridgesRemoved | src/main/io/github/ethankelly/Graph.java:302-312 | removeBridges as intended keeps the matrix shape |
| MainGraph.RemoveBridgesAllAsWritten | src/main/io/github/ethankelly/Graph.java:177-180 | the first loop of splice, removeBridges as written at every cut vertex, keeps the matrix shape |
| MainGraph.RemoveBridgesAll | src/main/io/github/ethankelly/Graph.java:177-180 | as intended: removing only the bridges at every cut vertex keeps the matrix shape |
| MainGraph.RecountedStepKeepsNonBridge | src/main/io/github/ethankelly/Graph.java:306-308 | an edge whose removal leaves the number of components as it is gets put back, so the matrix is unchanged |
| MainGraph.RecountedStepRemovesBridge | src/main/io/github/ethankelly/Graph.java:306-309 | an edge whose removal changes the number of components stays removed when no vertex is left alone |
| MainGraph.TriangleWithTailConnected | test/io/github/ethankelly/GraphTest.java:63-67 | the test graph G2 (a triangle 0-1-4 with the tail 1-2-3) is connected |
| MainGraph.TriangleWithTailLessZeroOne | test/io/github/ethankelly/GraphTest.java:63-67 | G2 without 0-1 is still connected |
| MainGraph.TriangleWithTailLessOneFour | test/io/github/ethankelly/GraphTest.java:63-67 | G2 without 1-4 is still connected, so 1-4 is not a bridge |
| MainGraph.TriangleAndEdgeComponents | src/main/io/github/ethankelly/Graph.java:309 | a graph made of a closed triangle and a closed edge has two components, none of a single vertex |
| MainGraph.BridgesRemovedAsWrittenDropsTriangleEdge | src/main/io/github/ethankelly/Graph.java:302-312 | on G2, removeBridges(1) as written removes 1-4 although removing it alone leaves the component count unchanged |
| MainGraph.BridgeStepOneZero | src/main/io/github/ethankelly/Graph.java:305-308 | on G2 against a count of one, the edge 1-0 is put back |
| MainGraph.BridgeStepOneTwo | src/main/io/github/ethankelly/Graph.java:305-309 | on G2 against a count of one, the bridge 1-2 stays removed and column 3 then changes nothing |
| MainGraph.BridgesRemovedKeepsTriangle | src/main/io/github/ethankelly/Graph.java:302-312 | on G2, removeBridges(1) as intended removes exactly the bridge 1-2 |
| MainGraph.NonBridgesKept | src/main/io/github/ethankelly/Graph.java:304-311 | when no edge at i changes the component count away from the one taken before the loop, removeBridges leaves the adjacency matrix unchanged |
| MainGraph.SubGraphFrom | src/main/io/github/ethankelly/Graph.java:223-227 | the loops of makeSubGraph give an m x m graph for m listed vertices |
| MainGraph.SubGraphOf | src/main/io/github/ethankelly/Graph.java:220-229 | makeSubGraph gives a graph with one vertex per listed vertex |
| MainGraph.SubGraphFromCells | src/main/io/github/ethankelly/Graph.java:223-227 | after the loops, a cell of the subgraph is set exactly when it was set before or a later step of the loops hits it |
| MainGraph.SubGraphInduced | src/main/io/github/ethankelly/Graph.java:220-229 | for distinct listed vertices, positions a and b are joined in the subgraph exactly when vertices vs[a] and vs[b] are joined in the graph |
| MainGraph.DistinctPart | src/main/io/github/ethankelly/Graph.java:181-184 | each connected component lists distinct vertices, since together they list every vertex once |
| MainGraph.ComponentSubGraphsInduced | src/main/io/github/ethankelly/Graph.java:181-184 | each subgraph splice builds from a component holds exactly the edges among that component's vertices, renumbered by position |
| MainGraph.MinConnectedLoop | src/main/io/github/ethankelly/Graph.java:318-325 | the loops of isMinimallyConnected as written keep the shape and can only turn the answer from true to false |
| MainGraph.MinConnectedStep | src/main/io/github/ethankelly/Graph.java:320-323 | one cell of isMinimallyConnected as written keeps the shape and can only turn the answer false |
| MainGraph.MinConnectedAsWritten | src/main/io/github/ethankelly/Graph.java:314-327 | isMinimallyConnected as written answers false for a graph of more than one component |
| MainGraph.MinimallyConnectedByRows | src/main/io/github/ethankelly/Graph.java:314-327 | being minimally connected is the same as having at most one component and every edge of every row being a bridge |
| MainGraph.IsolatedZeroKeepsFlag | src/main/io/github/ethankelly/Graph.java:318-325 | once vertex 0 has no edge, the loops of isMinimallyConnected as written cannot change the answer |
| MainGraph.KiteConnected | src/main/io/github/ethankelly/Graph.java:317 | the kite 0-1, 1-2, 2-3, 3-1 is connected |
| MainGraph.KiteWithoutOneTwoConnected | src/main/io/github/ethankelly/Graph.java:320-322 | the kite without 1-2 is still connected, so 1-2 is not a bridge |
| MainGraph.KiteFirstRemoval | src/main/io/github/ethankelly/Graph.java:320-322 | the first edge isMinimallyConnected removes from the kite is 0-1, which leaves vertex 0 without neighbours |
| MainGraph.MinConnectedAsWrittenAcceptsCycle | src/main/io/github/ethankelly/Graph.java:314-327 | isMinimallyConnected as written answers true for the kite, which is not minimally connected |
| MainGraph.Graph.constructor | src/main/io/github/ethankelly/Graph.java:42-46 | the new graph has the given size and name and the empty matrices |
| MainGraph.Graph.AddEdge | src/main/io/github/ethankelly/Graph.java:273-283 | the new state is addEdge applied to the old one |
| MainGraph.Graph.IsEdge | src/main/io/github/ethankelly/Graph.java:374-376 | an edge exists when either of the two cells is set, as IsEdgeIn states of the matrix |
| MainGraph.Graph.RemoveEdge | src/main/io/github/ethankelly/Graph.java:291-300 | the new state is removeEdge applied to the old one |
| MainGraph.Graph.GetConnectedComponents | src/main/io/github/ethankelly/Graph.java:189-218 | the components are the depth-first components of the adjacency matrix: every vertex in exactly one list, no edge leaving a list |
| MainGraph.Graph.GetAdjacencyList | src/main/io/github/ethankelly/Graph.java:400-420 | row i lists in ascending order exactly the j with adjMatrix[i][j] |
| MainGraph.Graph.GetCutVertices | src/main/io/github/ethankelly/Graph.java:240-265 | the cut vertices are ascending, in range, and each has two different neighbours |
| MainGraph.Graph.MakeSubGraph | src/main/io/github/ethankelly/Graph.java:220-229 | a fresh graph named name + " Subgraph" whose state is the subgraph on the listed vertices |
| MainGraph.Graph.AddRowEdges | src/main/io/github/ethankelly/Graph.java:224-226 | the inner loop of makeSubGraph advances the subgraph by one row of the loops |
| MainGraph.Graph.RemoveBridges | src/main/io/github/ethankelly/Graph.java:302-312 | the new state is removeBridges as intended, with the components counted afresh for each edge |
| MainGraph.Graph.RemoveBridgesAsWritten | src/main/io/github/ethankelly/Graph.java:302-312 | the new state is removeBridges as written, against the count taken once before the loop |
| MainGraph.Graph.BridgeAt | src/main/io/github/ethankelly/Graph.java:305-310 | the new state is one step of the removeBridges loop |
| MainGraph.Graph.RestoreForSingletons | src/main/io/github/ethankelly/Graph.java:309 | addEdge(i, j) is applied once per one-vertex component |
| MainGraph.Graph.Splice | src/main/io/github/ethankelly/Graph.java:172-187 | with no cut vertices the result is this graph, unchanged; otherwise the new state is removeBridges as written applied at each cut vertex in ascending order, and there is one subgraph per connected component of that state, each the induced subgraph on the component's vertices |
| MainGraph.Graph.RemoveBridgesAt | src/main/io/github/ethankelly/Graph.java:177-180 | the new state is removeBridges as written applied at each cut vertex in turn |
| MainGraph.Graph.SpliceIntended | src/main/io/github/ethankelly/Graph.java:172-187 | as intended: the same as splice with removeBridges as intended, so only the bridges at each cut vertex are removed before the components become induced subgraphs |
| MainGraph.Graph.RemoveBridgesAtIntended | src/main/io/github/ethankelly/Graph.java:177-180 | as intended: the new state is removeBridges as intended applied at each cut vertex in turn |
| MainGraph.Graph.MakeSubGraphs | src/main/io/github/ethankelly/Graph.java:181-184 | one fresh subgraph per component, each the subgraph on that component |
| MainGraph.Graph.IsMinimallyConnectedAsWritten | src/main/io/github/ethankelly/Graph.java:314-327 | the answer and the graph left behind are those of isMinimallyConnected as written |
| MainGraph.Graph.RemoveRowAsWritten | src/main/io/github/ethankelly/Graph.java:319-324 | one row of isMinimallyConnected as written |
| MainGraph.Graph.RemoveIfEdgeAsWritten | src/main/io/github/ethankelly/Graph.java:320-323 | one cell of isMinimallyConnected as written |
| MainGraph.Graph.IsMinimallyConnected | src/main/io/github/ethankelly/Graph.java:314-327 | true exactly when the graph has at most one component and removing any edge leaves other than one component; the graph is unchanged |
| MainGraph.Graph.RowAllBridges | src/main/io/github/ethankelly/Graph.java:319-324 | true exactly when every edge in row i is a bridge |
| Generators.MakeEdge | src/io/github/ethankelly/graph/GraphGenerator.java:370-378 | an Edge holds the same two endpoints, the smaller first |
| Generators.MakeEdgeSymmetric | src/io/github/ethankelly/graph/GraphGenerator.java:370-378 | the same unordered pair gives the same Edge in either order |
| Generators.CompareToAsWritten | src/io/github/ethankelly/graph/GraphGenerator.java:389-393 | compareTo as written returns -1, 0 or +1, and 0 exactly on equal edges |
| Generators.CompareToAsWrittenNotAntisymmetric | src/io/github/ethankelly/graph/GraphGenerator.java:389-393 | (0, 5) and (1, 2) each compare below the other |
| Generators.CompareTo | src/io/github/ethankelly/graph/GraphGenerator.java:389-393 | the lexicographic comparison returns -1, 0 or +1, and 0 exactly on equal edges |
| Generators.CompareToIsOrder | src/io/github/ethankelly/graph/GraphGenerator.java:389-393 | the lexicographic comparison is antisymmetric and transitive |
| Generators.Empty | src/io/github/ethankelly/graph/GraphGenerator.java:409 | a new graph of n vertices has n empty lists and no adjacent pair |
| Generators.WithEdges | src/io/github/ethankelly/graph/GraphGenerator.java:412-420 | a sequence of addEdge calls keeps the number of lists and keeps them a symmetric adjacency |
| Generators.AdjacentWithEdges | src/io/github/ethankelly/graph/GraphGenerator.java:412-420 | after the calls, two vertices are adjacent exactly when they were before or some call joined them |
| Generators.GeneratedAdjacency | src/io/github/ethankelly/graph/GraphGenerator.java:409-421 | in a generated graph, two vertices are adjacent exactly when some call joined them |
| Generators.AddEdges | src/io/github/ethankelly/graph/GraphGenerator.java:546-548 | the addEdge loop succeeds exactly when no call joins a vertex to itself, and then the lists and the edge counter are those of the calls |
| Generators.Build | src/io/github/ethankelly/graph/GraphGenerator.java:47-52 | a new graph followed by the calls fails exactly on a self-loop, and otherwise has the lists of the calls and one edge per call |
| Generators.RangeOnce | src/io/github/ethankelly/graph/GraphGenerator.java:543 | each value occurs at most once in 0, 1, ..., n-1 |
| Generators.CountedTwice | src/io/github/ethankelly/graph/GraphGenerator.java:543-544 | a value at two positions occurs at least twice |
| Generators.ShuffledIsOrder | src/io/github/ethankelly/graph/GraphGenerator.java:543-544 | a shuffle of 0..n-1 lists every vertex below n exactly once and nothing else |
| Generators.ShuffledVertices | src/io/github/ethankelly/graph/GraphGenerator.java:543-544 | the shuffled array is a permutation of 0..n-1 |
| Generators.RowsBeforeAll | src/io/github/ethankelly/graph/GraphGenerator.java:453-457 | the rows before i of complete add i(2n-i-1)/2 pairs |
| Generators.Complete | src/io/github/ethankelly/graph/GraphGenerator.java:451-459 | complete(n) has n(n-1)/2 edges and joins exactly the pairs of distinct vertices |
| Generators.CompleteRow | src/io/github/ethankelly/graph/GraphGenerator.java:454-456 | row i of complete adds n-i-1 edges, joining i to every later vertex |
| Generators.CycleEdges | src/io/github/ethankelly/graph/GraphGenerator.java:585-589 | cycle issues n calls within 0..n-1 |
| Generators.CycleJoins | src/io/github/ethankelly/graph/GraphGenerator.java:580-591 | on n >= 2 vertices the cycle joins exactly consecutive vertices and the last to the first, with no self-loop |
| Generators.Cycle | src/io/github/ethankelly/graph/GraphGenerator.java:580-591 | cycle(0) is out of bounds, cycle(1) fails addEdge's assertion, otherwise n edges along the cycle |
| Generators.PathEdges | src/io/github/ethankelly/graph/GraphGenerator.java:546-548 | path issues n-1 calls for n > 0 and none for n = 0 |
| Generators.PathJoins | src/io/github/ethankelly/graph/GraphGenerator.java:540-550 | the path joins exactly the vertices adjacent in the shuffled order, with no self-loop |
| Generators.Path | src/io/github/ethankelly/graph/GraphGenerator.java:540-550 | path(n) has n-1 edges (none for n = 0) along a permutation of the vertices |
| Generators.StarEdges | src/io/github/ethankelly/graph/GraphGenerator.java:677 | star issues n-1 calls |
| Generators.StarJoins | src/io/github/ethankelly/graph/GraphGenerator.java:669-680 | the star joins its centre vs[0] to every other vertex and joins no other pair |
| Generators.Star | src/io/github/ethankelly/graph/GraphGenerator.java:669-680 | star(0) fails the assertion; otherwise n-1 edges from the shuffled centre |
| Generators.BinaryTreeEdges | src/io/github/ethankelly/graph/GraphGenerator.java:566-568 | binaryTree issues n-1 calls for n > 0 and none for n = 0 |
| Generators.BinaryTreeNoLoops | src/io/github/ethankelly/graph/GraphGenerator.java:566-568 | no vertex is joined to itself, since position i and (i-1)/2 differ |
| Generators.BinaryTreeJoins | src/io/github/ethankelly/graph/GraphGenerator.java:560-570 | two vertices are joined exactly when one is at position i and the other at its heap parent (i-1)/2 |
| Generators.BinaryTree | src/io/github/ethankelly/graph/GraphGenerator.java:560-570 | binaryTree(n) has n-1 edges (none for n = 0), each vertex to its heap parent in a shuffled order |
| Generators.ColumnSize | src/io/github/ethankelly/graph/GraphGenerator.java:407 | there are k pairs joining a vertex below k to a fixed larger vertex |
| Generators.AllPairsSize | src/io/github/ethankelly/graph/GraphGenerator.java:407 | there are n(n-1)/2 unordered pairs of distinct vertices below n |
| Generators.SomePairLeft | src/io/github/ethankelly/graph/GraphGenerator.java:412-420 | while fewer than n(n-1)/2 pairs are in use, some pair of distinct vertices is unused, so simple's loop can go on |
| Generators.EdgeSetGenerated | src/io/github/ethankelly/graph/GraphGenerator.java:409-421 | the edges of a generated graph are the unordered pairs its calls join |
| Generators.EdgesOfSize | src/io/github/ethankelly/graph/GraphGenerator.java:416-418 | calls that never repeat a pair join as many pairs as there are calls |
| Generators.EdgeObject.constructor | src/io/github/ethankelly/graph/GraphGenerator.java:370-378 | the object holds the Edge of the pair |
| Generators.WithOneMore | src/io/github/ethankelly/graph/GraphGenerator.java:418 | one more call adds that edge to the lists |
| Generators.TwoVertices | src/io/github/ethankelly/graph/GraphGenerator.java:407 | a positive number of edges at most n(n-1)/2 needs at least two vertices |
| Generators.SimpleAsWritten | src/io/github/ethankelly/graph/GraphGenerator.java:406-422 | simple as written fails exactly when m is outside 0..n(n-1)/2 and otherwise makes m loop-free calls, with the edge counter at m |
| Generators.SimpleAsWrittenRepeatsEdge | src/io/github/ethankelly/graph/GraphGenerator.java:411-418 | the calls (0, 1) then (1, 0) pass the identity-based test, yet the graph counts two edges and has one |
| Generators.Simple | src/io/github/ethankelly/graph/GraphGenerator.java:406-422 | simple with Edge compared by value fails exactly when m is outside 0..n(n-1)/2 and otherwise has exactly m different edges |
| Generators.Copies | src/io/github/ethankelly/graph/GraphGenerator.java:697-702 | the array of copies has n*k entries |
| Generators.MulBeyond | src/io/github/ethankelly/graph/GraphGenerator.java:700 | a nonzero multiple of d lies at least d from 0 |
| Generators.DivModUnique | src/io/github/ethankelly/graph/GraphGenerator.java:700 | division recovers the copy number and the vertex from a position |
| Generators.Position | src/io/github/ethankelly/graph/GraphGenerator.java:698-701 | position v + n*j lies in the array and holds vertex v |
| Generators.Split | src/io/github/ethankelly/graph/GraphGenerator.java:698-701 | every position is some v + n*j |
| Generators.FillCopies | src/io/github/ethankelly/graph/GraphGenerator.java:697-702 | the double loop fills the array with the copies, position v + n*j holding v |
| Generators.ModShift | src/io/github/ethankelly/graph/GraphGenerator.java:700 | shifting a position by n keeps its vertex |
| Generators.CopiesCount | src/io/github/ethankelly/graph/GraphGenerator.java:697-702 | the array holds each vertex exactly k times and nothing else |
| Generators.RegularEdges | src/io/github/ethankelly/graph/GraphGenerator.java:707 | the shuffled array read in pairs gives half as many calls as entries |
| Generators.RegularEdgesLast | src/io/github/ethankelly/graph/GraphGenerator.java:707 | the last pair of an even-length array is the last call |
| Generators.RegularEnds | src/io/github/ethankelly/graph/GraphGenerator.java:707 | reading an even-length array in pairs uses every position exactly once as an endpoint |
| Generators.DegreeWithEdges | src/io/github/ethankelly/graph/GraphGenerator.java:707 | each call adds one entry to the list of each endpoint |
| Generators.Regular | src/io/github/ethankelly/graph/GraphGenerator.java:692-709 | regular(n, k) fails when n*k is odd or when two copies of one vertex are paired, and otherwise has n*k/2 edges with every vertex listing exactly k neighbours |
| Generators.ParseInt | src/io/github/ethankelly/graph/GraphGenerator.java:331 | a parsed value lies in the int range and comes from text starting with a digit or a sign |
| Generators.ShowNat | src/io/github/ethankelly/graph/GraphGenerator.java:694 | the decimal writing of a natural number is a nonempty string of digits |
| Generators.ShowNatValue | src/io/github/ethankelly/graph/GraphGenerator.java:694 | the digits of a natural number read back as that number |
| Generators.ParseShow | src/io/github/ethankelly/graph/GraphGenerator.java:331 | parseInt reads back every int that toString writes |
| Generators.ParseIntegers | src/io/github/ethankelly/graph/GraphGenerator.java:327-338 | one slot per argument: the parsed value, or 0 where parseInt refuses the argument |
| GraphByName.Find | src/io/github/ethankelly/graph/GraphGenerator.java:275-322 | the case found is listed and has the label; no case is found only when no listed case has it |
| GraphByName.KindOf | src/io/github/ethankelly/graph/GraphGenerator.java:275-322 | the case chosen has the lower-cased name as a label, and there is none exactly when no case has it |
| GraphByName.KindsComplete | src/io/github/ethankelly/graph/GraphGenerator.java:276-321 | every case of the switch is listed |
| GraphByName.ToastByName | src/io/github/ethankelly/graph/GraphGenerator.java:275-276 | "Toast" selects the toast case |
| GraphByName.Counts | src/io/github/ethankelly/graph/GraphGenerator.java:281-321 | each case reads as many integer arguments as it needs |
| GraphByName.Fixed | src/io/github/ethankelly/graph/GraphGenerator.java:94-131 | toast, triangle and lollipop are fresh graphs with their fixed edges and edge counts |
| GraphByName.FaultOf | src/io/github/ethankelly/graph/GraphGenerator.java:279-321 | a fault is forced only for a case this model builds: cycle of 0 is out of bounds; simple with a negative edge count or more edges than pairs, cycle of 1, star of 0, tree of 0, and regular with n * k odd fail an assert |
| GraphByName.Generate | src/io/github/ethankelly/graph/GraphGenerator.java:279-321 | each forced fault is raised; the only other failure is a regular pairing that draws a loop; it builds none exactly for the cases left out; otherwise the graph is what the case builds: complete adjacency exactly between different vertices, the edge lists of simple (as written, so a pair may be drawn twice), path, binary tree, cycle, star, regular and tree, with their edge counts and names |
| GraphByName.GenerateShaped | src/io/github/ethankelly/graph/GraphGenerator.java:290-302 | complete, path, binary tree and cycle: cycle of 0 or 1 fails as FaultOf says, and otherwise the graph is the one the case builds (Built) |
| GraphByName.GenerateDrawn | src/io/github/ethankelly/graph/GraphGenerator.java:279-320 | simple, star, regular and tree: the forced fault of FaultOf is raised, the only other failure is a regular pairing that draws a loop, and otherwise the graph is the one the case builds (Built) |
| GraphByName.GetGraph | src/io/github/ethankelly/graph/GraphGenerator.java:273-325 | a missing args[1] or a missing argument is out of bounds, an unknown name is IllegalState; otherwise the selected case's forced fault, or the graph it builds as Generate states |
| GraphByName.Run | src/io/github/ethankelly/graph/GraphGenerator.java:275-323 | once a case is selected, a missing argument is out of bounds; otherwise the forced fault of the case on the parsed arguments, or the graph it builds (the fixed graphs included) |
| PruferTree.VerticesIn | src/io/github/ethankelly/graph/GraphGenerator.java:731 | the vertex set of tree(n) is exactly 0..n-1 |
| PruferTree.VerticesSize | src/io/github/ethankelly/graph/GraphGenerator.java:731 | there are n vertices |
| PruferTree.MinOf | src/io/github/ethankelly/graph/GraphGenerator.java:741 | the smallest vertex of a non-empty set is in the set and at most every other |
| PruferTree.ValuesSize | src/io/github/ethankelly/graph/GraphGenerator.java:728 | a sequence has no more distinct values than entries |
| PruferTree.LeavesSize | src/io/github/ethankelly/graph/GraphGenerator.java:734-741 | while two more vertices are unattached than entries are left, at least two of them are leaves, so delMin always finds one |
| PruferTree.EndsSnoc | src/io/github/ethankelly/graph/GraphGenerator.java:742 | one more call adds its two endpoints |
| PruferTree.EndsAppend | src/io/github/ethankelly/graph/GraphGenerator.java:740-747 | the endpoints of two runs of calls add up |
| PruferTree.LastTwo | src/io/github/ethankelly/graph/GraphGenerator.java:747 | two vertices are the smallest and the smallest of the rest, which differ |
| PruferTree.DecodeCalls | src/io/github/ethankelly/graph/GraphGenerator.java:740-747 | decoding makes one more call than entries, each between two different unattached vertices |
| PruferTree.EndsFront | src/io/github/ethankelly/graph/GraphGenerator.java:742 | a call followed by more calls has its endpoints plus theirs |
| PruferTree.DecodeEndsLast | src/io/github/ethankelly/graph/GraphGenerator.java:747 | the last call joins the last two vertices once each |
| PruferTree.DecodeEnds | src/io/github/ethankelly/graph/GraphGenerator.java:730-747 | each unattached vertex ends up in one more call than it occurs in the remaining sequence |
| PruferTree.DecodeTree | src/io/github/ethankelly/graph/GraphGenerator.java:718-749 | for n >= 2 and a sequence of n-2 vertices, decoding makes n-1 loop-free calls and gives each vertex degree one more than its occurrences, as Prüfer's correspondence promises |
| PruferTree.LeavesStep | src/io/github/ethankelly/graph/GraphGenerator.java:743-745 | after the smallest leaf is attached, the first entry becomes a leaf exactly when it does not occur again |
| PruferTree.KeyedCount | src/io/github/ethankelly/graph/GraphGenerator.java:736 | the queue holds each vertex of the set once and no null key |
| PruferTree.KeyedAdd | src/io/github/ethankelly/graph/GraphGenerator.java:745 | inserting a new vertex adds its key |
| PruferTree.KeyedRemove | src/io/github/ethankelly/graph/GraphGenerator.java:741 | removing a vertex removes its key |
| PruferTree.KeyedMin | src/io/github/ethankelly/graph/GraphGenerator.java:741 | the key delMin returns is the smallest vertex of the set |
| PruferTree.KeyedNonEmpty | src/io/github/ethankelly/graph/GraphGenerator.java:741 | a queue holding a vertex is not empty |
| PruferTree.DrawPrufer | src/io/github/ethankelly/graph/GraphGenerator.java:728 | the sequence has n-2 entries, each a vertex below n |
| PruferTree.CountDegrees | src/io/github/ethankelly/graph/GraphGenerator.java:731-732 | each vertex's degree is one plus its occurrences in the sequence |
| PruferTree.LeavesNext | src/io/github/ethankelly/graph/GraphGenerator.java:736 | the leaves among 0..v grow by v exactly when v does not occur in the sequence |
| PruferTree.QueueLeaves | src/io/github/ethankelly/graph/GraphGenerator.java:735-736 | the new queue holds exactly the vertices of degree 1 |
| PruferTree.Tree | src/io/github/ethankelly/graph/GraphGenerator.java:718-749 | tree(0) fails; tree(1) has no edge; otherwise n-1 edges, those of the Prüfer decoding of the drawn sequence, with each vertex's degree one plus its occurrences |
| PruferTree.Attach | src/io/github/ethankelly/graph/GraphGenerator.java:728-747 | after all the steps the graph holds the decoded calls |
| PruferTree.Steps | src/io/github/ethankelly/graph/GraphGenerator.java:740-746 | the loop keeps the calls made so far plus the rest of the decoding equal to the whole decoding |
| PruferTree.Finish | src/io/github/ethankelly/graph/GraphGenerator.java:747 | the last call joins the two vertices left on the queue |
| PruferTree.StepFacts | src/io/github/ethankelly/graph/GraphGenerator.java:741-745 | one step attaches the smallest leaf to the first entry, lowers both degrees and leaves the rest to decode |
| PruferTree.NextLeaf | src/io/github/ethankelly/graph/GraphGenerator.java:741 | delMin returns the smallest leaf and the queue keeps the others |
| PruferTree.Lower | src/io/github/ethankelly/graph/GraphGenerator.java:743-744 | both degrees drop by one (twice if the same vertex) and no other changes |
| PruferTree.TreeStep | src/io/github/ethankelly/graph/GraphGenerator.java:741-745 | one step keeps the degree array, the queue of leaves and the calls in line with the decoding |
| PruferTree.StepDecode | src/io/github/ethankelly/graph/GraphGenerator.java:741-742 | the attached pair is a loop-free call within range, and the decoding so far is unchanged |
| PruferTree.Join | src/io/github/ethankelly/graph/GraphGenerator.java:742 | addEdge(v, p) extends the record of calls by (v, p) |
| PruferTree.LeafStep | src/io/github/ethankelly/graph/GraphGenerator.java:741-745 | the leaf removed is the smallest and the degrees and queue are those after the step |
| Tuples.FromList | src/io/github/ethankelly/Tuples.java:193-196 | a new tuple holds the same vertices, sorted by location |
| Tuples.InsertChar | src/io/github/ethankelly/Tuples.java:100 | inserting a letter keeps the letters plus the new one and keeps them sorted |
| Tuples.InsertCharBelow | src/io/github/ethankelly/Tuples.java:100 | the insertion step keeps sorted letters sorted when the new letter moves in front |
| Tuples.SortChars | src/io/github/ethankelly/Tuples.java:100 | Arrays.sort gives the same letters in ascending order |
| Tuples.SortCharsSorted | src/io/github/ethankelly/Tuples.java:100 | sorting already sorted letters changes nothing |
| Tuples.SortCharsIdempotent | src/io/github/ethankelly/Tuples.java:100 | sorting twice is sorting once |
| Tuples.SingleStates | src/io/github/ethankelly/Tuples.java:102-103 | SIR is enumerated as SI, SIRP as SIP, and any other sorted states as they are |
| Tuples.SirCollapses | src/io/github/ethankelly/States.java:4-5 | S, I and R in any order are enumerated as I, S |
| Tuples.CompareTo | src/io/github/ethankelly/Tuples.java:362-365 | compareTo is negative exactly when this tuple is larger and positive exactly when it is smaller |
| Tuples.InsertBySize | src/io/github/ethankelly/Tuples.java:153 | as intended (compareTo on the real size): inserting a tuple keeps the entries plus the new one and keeps sizes decreasing |
| Tuples.InsertBySizeAbove | src/io/github/ethankelly/Tuples.java:153 | as intended: the insertion step keeps sizes decreasing when the new tuple moves in front |
| Tuples.SortBySize | src/io/github/ethankelly/Tuples.java:153 | as intended: Collections.sort gives a permutation with sizes decreasing |
| Tuples.SortBySizeSorted | src/io/github/ethankelly/Tuples.java:118 | as intended: the stable sort leaves a list already in decreasing size order as it is |
| Tuples.InsertAsWritten | src/io/github/ethankelly/Tuples.java:362-365 | under compareTo as written every pair ties, so the insertion step of the stable sort puts the new tuple last |
| Tuples.SortAsWritten | src/io/github/ethankelly/Tuples.java:153 | Collections.sort with compareTo as written leaves the list exactly as it was |
| Tuples.SizeAsWrittenMisjudges | src/io/github/ethankelly/Tuples.java:205-209 | with the inherited size() always 0, the single I0 is judged not required and a pair ties with a single under compareTo |
| Tuples.SizeAsWritten | src/io/github/ethankelly/Tuples.java:183-186 | as written: the inherited ArrayList size of a tuple, which is 0 because the vertices sit in the singles field |
| Tuples.AreStatesDifferentAsWritten | src/io/github/ethankelly/Tuples.java:205-228 | as written: the size() == 1 shortcut never fires, so a tuple passes only when two of its states differ; ValidAsWrittenCases relates it to the intended check |
| Tuples.CompareToAsWritten | src/io/github/ethankelly/Tuples.java:362-365 | as written: Integer.compare of two zero sizes, so every pair of tuples ties; SortAsWritten keeps the list order because of it |
| Tuples.StatesDifferentCases | src/io/github/ethankelly/Tuples.java:205-229 | as intended, with the real size: a single is always required; a larger tuple is required exactly when its states differ, or closures are on and one is S; a pair sorts before a single |
| Tuples.AreStatesDifferent | src/io/github/ethankelly/Tuples.java:205-228 | as intended: the VertexState check on the tuple's states with its real size; StatesDifferentCases states its cases |
| Tuples.AddAsWritten | src/io/github/ethankelly/Tuples.java:316-321 | add as written: a tuple built by Tuple(Vertex) holds an immutable singleton list and throws; otherwise the list gains v and is re-sorted, and add answers false |
| Tuples.Add | src/io/github/ethankelly/Tuples.java:316-321 | as intended: the list gains v and is re-sorted, and add answers true exactly when the list changed, which it always does |
| Tuples.AddAsWrittenMisreports | src/io/github/ethankelly/Tuples.java:188-196 | on a growable list, add as written builds the same list as add as intended but answers false; on a single built by Tuple(Vertex) it throws |
| Tuples.ValidAsWrittenCases | src/io/github/ethankelly/Tuples.java:205-263 | isValidTuple as written is exactly the state test as written plus the location test, with no connectivity test; on every size but 1 the intended check is that plus every location in the graph and the vertices connected; as written a single passes only if it is S and closures are on |
| Tuples.SinglesOf | src/io/github/ethankelly/Tuples.java:111-116 | one single per state per vertex |
| Tuples.InSinglesOf | src/io/github/ethankelly/Tuples.java:106-116 | the singles are exactly the one-vertex tuples of a listed state at a vertex of the graph |
| Tuples.SirSingles | src/io/github/ethankelly/Tuples.java:98-118 | for SIR on n vertices there are 2n singles |
| Tuples.SinglesDecreasing | src/io/github/ethankelly/Tuples.java:118 | the singles are already in decreasing size order |
| Tuples.SelectionsCount | src/io/github/ethankelly/Tuples.java:123-136 | the recursive helper produces 2^k lists for k remaining items |
| Tuples.SelectionsComplete | src/io/github/ethankelly/Tuples.java:123-136 | every choice of the remaining items is produced |
| Tuples.SelectionsSound | src/io/github/ethankelly/Tuples.java:123-136 | every list produced is the selection so far plus some choice of the remaining items |
| Tuples.Tupled | src/io/github/ethankelly/Tuples.java:127 | each produced list becomes a tuple of those vertices |
| Tuples.TupledAppend | src/io/github/ethankelly/Tuples.java:127 | tupling two runs of lists tuples each in turn |
| Tuples.VertexList.constructor | src/io/github/ethankelly/Tuples.java:146 | a new list is empty |
| Tuples.TupleList.constructor | src/io/github/ethankelly/Tuples.java:145 | a new list is empty |
| Tuples.GenerateFrom | src/io/github/ethankelly/Tuples.java:123-136 | the helper appends one tuple per choice of the remaining items and leaves the selected list as it found it |
| Tuples.GenerateAll | src/io/github/ethankelly/Tuples.java:144-147 | the helper run on fresh lists from index 0 returns one tuple per choice of the items, in the order Selections lists them |
| Tuples.KeepValidAsWritten | src/io/github/ethankelly/Tuples.java:151 | removeIf keeps exactly the tuples isValidTuple as written accepts, so disconnected tuples whose states and locations differ stay |
| Tuples.KeepValid | src/io/github/ethankelly/Tuples.java:151 | as intended: removeIf keeps exactly the valid tuples, judged by their real size |
| Tuples.IsValidTuple | src/io/github/ethankelly/Tuples.java:259-263 | as intended: states different, locations different, every location in the graph and the vertices connected; ValidAsWrittenCases relates it to the check as written |
| Tuples.AddMissing | src/io/github/ethankelly/Tuples.java:152 | the singles not yet present are appended after the kept tuples |
| Tuples.GeneratedSound | src/io/github/ethankelly/Tuples.java:143-156 | as intended: every tuple returned is a single or a valid tuple drawn from the singles |
| Tuples.GeneratedComplete | src/io/github/ethankelly/Tuples.java:143-156 | as intended: every single is returned, and so is every valid tuple drawn from the singles |
| Tuples.GeneratedDecreasing | src/io/github/ethankelly/Tuples.java:153 | as intended: the list comes out with larger tuples first |
| Tuples.PickedFromItems | src/io/github/ethankelly/Tuples.java:131 | every vertex a selection holds is the vertex of one of the singles |
| Tuples.FromListOfOne | src/io/github/ethankelly/Tuples.java:193-196 | a one-vertex tuple holds exactly the one-vertex list it was built from |
| Tuples.PickedOneIsItem | src/io/github/ethankelly/Tuples.java:123-136 | a selection of one item gives back that single |
| Tuples.SingleSelectionIsItem | src/io/github/ethankelly/Tuples.java:123-136 | every one-vertex tuple the helper produces is one of the singles |
| Tuples.IsValidTupleAsWritten | src/io/github/ethankelly/Tuples.java:259-263 | as written: the state test as written, the location test, and areAllConnected applied to the tuple object's own empty list, which always passes; ValidAsWrittenCases states its cases |
| Tuples.ValidAsWrittenKeepsDisconnected | src/io/github/ethankelly/Tuples.java:259-263 | on the path 0-1-2 without closures, [S0, I2] passes isValidTuple as written and fails the intended check, since 0 and 2 are not adjacent |
| Tuples.GeneratedAsWritten | src/io/github/ethankelly/Tuples.java:143-156 | as written: the enumerated subsets that isValidTuple as written keeps, then the missing singles, in enumeration order; GeneratedAsWrittenSound and GeneratedAsWrittenComplete state its members |
| Tuples.GeneratedAsWrittenSound | src/io/github/ethankelly/Tuples.java:143-156 | every tuple generateTuples returns as written is a single, or a tuple drawn from the singles whose states differ as written and whose locations differ |
| Tuples.GeneratedAsWrittenComplete | src/io/github/ethankelly/Tuples.java:143-156 | as written every single is returned, and so is every tuple drawn from the singles whose states differ as written and whose locations differ, connected or not |
| Tuples.SinglesInAsWritten | src/io/github/ethankelly/Tuples.java:152 | as written every single is returned, because the second findSingles puts back those removeIf drops |
| Tuples.GeneratedInAsWritten | src/io/github/ethankelly/Tuples.java:143-156 | every tuple of the intended list is also in the list as written |
| Tuples.GeneratedAsWrittenKeepsDisconnected | src/io/github/ethankelly/Tuples.java:143-156 | on the path 0-1-2 with SIR and no closures, the list as written holds [S0, I2] and the intended list does not |
| Tuples.PairInAsWritten | src/io/github/ethankelly/Tuples.java:143-156 | on any graph of three vertices with SIR and no closures, the list as written holds [S0, I2] |
| Tuples.DisconnectedNotGenerated | src/io/github/ethankelly/Tuples.java:143-156 | on the path 0-1-2 with SIR and no closures, the intended list does not hold [S0, I2] |
| Tuples.PathPicksPair | src/io/github/ethankelly/Tuples.java:111-136 | for SIR on three vertices, choosing the singles I2 and S0 gives the tuple [S0, I2] |
| Tuples.FindNumbers | src/io/github/ethankelly/Tuples.java:63-72 | entry k-1 counts the equations of size k, the array as long as the last equation; an empty list or a size of 0 or above the last one is out of bounds |
| Tuples.FindNumbersRejectsDecreasing | src/io/github/ethankelly/Tuples.java:63-72 | on a list sorted with larger tuples first, findNumbers fails as soon as a tuple is larger than the last |
| Tuples.Tuples.constructor | src/io/github/ethankelly/Tuples.java:31-36 | the object holds the graph, the states and the closures flag, with no tuples yet |
| Tuples.Tuples.FindSingles | src/io/github/ethankelly/Tuples.java:98-118 | the states are sorted in place and the result is the singles of the collapsed states, in state-major order, which the sort as written keeps |
| Tuples.Tuples.GenerateTuples | src/io/github/ethankelly/Tuples.java:143-156 | the result is generateTuples as written for the graph and the states: the subsets that pass the state and location tests, connected or not, in enumeration order, then the singles removeIf dropped, unsorted |
| Tuples.Tuples.GetTuples | src/io/github/ethankelly/Tuples.java:39-44 | the first call (while the list is empty) generates the list as written, disconnected tuples included, and keeps it; later calls return it unchanged |
| VertexStates.Locations | src/io/github/ethankelly/graph/VertexState.java:113-115 | the locations of a list, position by position |
| VertexStates.StatesDifferentIff | src/io/github/ethankelly/graph/VertexState.java:37-60 | for a list of other than one vertex, the check holds exactly when two states differ, or closures are on and some state is S |
| VertexStates.AreStatesDifferent | src/io/github/ethankelly/graph/VertexState.java:37-60 | a one-vertex list passes; otherwise some pair of states must differ under the closure rule; StatesDifferentIff and AllSusceptibleRejected state what that means |
| VertexStates.AreLocationsDifferent | src/io/github/ethankelly/graph/VertexState.java:71-82 | no two positions share a location; LocationsDifferentIff states it as pairwise distinct locations |
| VertexStates.AreAllConnected | src/io/github/ethankelly/graph/VertexState.java:94-101 | a one-vertex list passes; otherwise consecutive vertices are adjacent; ConnectedTupleReaches states the first vertex then reaches every other |
| VertexStates.AllSusceptibleRejected | src/io/github/ethankelly/graph/VertexState.java:45-55 | an all-S tuple of two or more vertices is rejected without closures and accepted with them |
| VertexStates.LocationsDifferentIff | src/io/github/ethankelly/graph/VertexState.java:71-82 | the check holds exactly when the locations are pairwise distinct |
| VertexStates.ConnectedTupleReaches | src/io/github/ethankelly/graph/VertexState.java:94-101 | in a tuple that passes areAllConnected, the first vertex reaches every other one in the graph |
| VertexStates.InsertByLocation | src/io/github/ethankelly/Tuples.java:194 | an insertion step of the location sort adds one entry |
| VertexStates.InsertPermutes | src/io/github/ethankelly/Tuples.java:194 | inserting adds exactly the new vertex |
| VertexStates.InsertSorted | src/io/github/ethankelly/Tuples.java:194 | inserting into a list in location order keeps it in order |
| VertexStates.SortByLocation | src/io/github/ethankelly/Tuples.java:194 | the sort keeps the length |
| VertexStates.SortPermutesAndSorts | src/io/github/ethankelly/Tuples.java:194 | the sort is a permutation of its input in location order |
| VertexStates.SortSorted | src/io/github/ethankelly/Tuples.java:194 | sorting a list already in location order changes nothing |
| VertexStates.SinglesOver | src/io/github/ethankelly/Tuples.java:111-116 | one entry per state per vertex |
| VertexStates.SinglesOverAt | src/io/github/ethankelly/Tuples.java:111-116 | position i*|vs| + k holds state cs[i] at vertex vs[k] |
| VertexStates.InSinglesOver | src/io/github/ethankelly/Tuples.java:111-116 | the entries are exactly the (state, vertex) pairs drawn from the two lists |
| VertexStates.SinglesOverAppend | src/io/github/ethankelly/Tuples.java:111-116 | one more state appends one entry per vertex |
| VertexStates.CollectSingles | src/io/github/ethankelly/Tuples.java:111-116 | the double loop produces the state-major list of singles |
| Required.FromList | src/io/github/ethankelly/model/RequiredTuples.java:301-304 | a new tuple holds the same vertices, sorted by location |
| Required.LocationsAreDifferentOnDistinct | src/io/github/ethankelly/model/RequiredTuples.java:314-325 | on a tuple with no vertex repeated, locationsAreDifferent accepts exactly the tuples with no location repeated |
| Required.LocationsAreDifferent | src/io/github/ethankelly/model/RequiredTuples.java:314-325 | as written: the indexOf double loop of model/Tuple.java; LocationsAreDifferentOnDistinct states what it accepts |
| Required.AddAsWritten | src/io/github/ethankelly/model/RequiredTuples.java:380-386 | add as written: the list gains v and is re-sorted, and add answers false |
| Required.Add | src/io/github/ethankelly/model/RequiredTuples.java:380-386 | as intended: the list gains v and is re-sorted, and add answers true exactly when the list changed, which it always does |
| Required.AddAsWrittenMisreports | src/io/github/ethankelly/model/RequiredTuples.java:380-386 | add as written builds the same list as add as intended but answers false where the intended answer is true |
| Required.CompareTo | src/io/github/ethankelly/model/RequiredTuples.java:399-402 | compareTo is negative exactly when this tuple is smaller and positive exactly when it is larger |
| Required.InsertAsc | src/io/github/ethankelly/model/RequiredTuples.java:90 | an insertion step of the sort keeps the entries plus the new one and keeps sizes ascending |
| Required.InsertAscBelow | src/io/github/ethankelly/model/RequiredTuples.java:90 | the insertion step keeps sizes ascending when the new tuple moves in front |
| Required.SortAsc | src/io/github/ethankelly/model/RequiredTuples.java:90 | Collections.sort gives a permutation with sizes ascending |
| Required.SortAscSorted | src/io/github/ethankelly/model/RequiredTuples.java:90 | the stable sort leaves a list already in ascending size order as it is |
| Required.RemoveFirst | src/io/github/ethankelly/model/RequiredTuples.java:102 | List.remove drops the first occurrence of the state, and changes nothing when it is absent |
| Required.ExitableMember | src/io/github/ethankelly/model/RequiredTuples.java:97-103 | a state is kept exactly when some position holds it with a nonzero toExit |
| Required.RemoveFirstAfter | src/io/github/ethankelly/model/RequiredTuples.java:102 | removing a state just after a prefix that lacks it removes that occurrence |
| Required.ExitableStep | src/io/github/ethankelly/model/RequiredTuples.java:98-103 | one more position extends the kept states by that state when its toExit is not 0 |
| Required.StatesToGenerateCase | src/io/github/ethankelly/model/RequiredTuples.java:98-103 | one step of the loop keeps the copy as the kept prefix followed by the untouched rest |
| Required.StatesToGenerateStep | src/io/github/ethankelly/model/RequiredTuples.java:98-103 | with no state listed twice, after k steps the copy is the kept prefix followed by the untouched rest |
| Required.StatesToGenerateDistinct | src/io/github/ethankelly/model/RequiredTuples.java:96-103 | with distinct states, findSingles keeps exactly the states whose toExit is not 0, in order |
| Required.SirStatesToGenerate | src/io/github/ethankelly/model/RequiredTuples.java:145 | for the SIR parameters (toExit 2, 1, 0) the kept states are S and I |
| Required.Singletons | src/io/github/ethankelly/model/RequiredTuples.java:110-115 | one single-vertex tuple per entry |
| Required.SinglesUnsorted | src/io/github/ethankelly/model/RequiredTuples.java:116 | the sort in findSingles changes nothing, since every single has one vertex |
| Required.SirSingles | src/io/github/ethankelly/model/RequiredTuples.java:96-118 | for SIR there are two singles per vertex, exactly S and I at each location |
| Required.SinglesOverDistinct | src/io/github/ethankelly/model/RequiredTuples.java:110-115 | singles of distinct states over distinct vertices are distinct |
| Required.Combine | src/io/github/ethankelly/model/RequiredTuples.java:73-75 | the i-th vertex of the subgraph takes the i-th state of the walk |
| Required.ForSubGraph | src/io/github/ethankelly/model/RequiredTuples.java:71-77 | one list per walk of the subgraph's length |
| Required.InToMake | src/io/github/ethankelly/model/RequiredTuples.java:70-78 | the lists to make are exactly one per connected subgraph and walk of its length |
| Required.AddNew | src/io/github/ethankelly/model/RequiredTuples.java:80-83 | the tuples already in the list stay at the front |
| Required.AddNewMembers | src/io/github/ethankelly/model/RequiredTuples.java:80-83 | the tuples added are exactly those of the lists not already there |
| Required.AddNewDistinct | src/io/github/ethankelly/model/RequiredTuples.java:80-83 | contains keeps the list free of repeats |
| Required.GeneratedMembers | src/io/github/ethankelly/model/RequiredTuples.java:60-88 | a tuple is returned exactly when it is a single or made from some connected subgraph and walk |
| Required.GeneratedShape | src/io/github/ethankelly/model/RequiredTuples.java:60-88 | nothing is returned twice, the result runs by ascending size, and every single is kept |
| Required.FindNumbers | src/io/github/ethankelly/model/RequiredTuples.java:186-195 | entry k-1 counts the equations of size k, the array as long as the last equation; a size of 0 or above the last one is out of bounds |
| Required.CountOfSizeIsSet | src/io/github/ethankelly/Tuples.java:68-70 | counting equations of a size is counting the positions that hold one |
| Required.FindNumbersAcceptsAscending | src/io/github/ethankelly/model/RequiredTuples.java:186-195 | on a list sorted with smaller tuples first, findNumbers cannot go out of bounds |
| Required.MakeOne | src/io/github/ethankelly/model/RequiredTuples.java:72-75 | the innermost loop combines the subgraph with the walk, or runs out of the walk |
| Required.MakeForSubGraph | src/io/github/ethankelly/model/RequiredTuples.java:71-77 | the walks of the subgraph's length each give a list, or an index goes out of bounds |
| Required.MakeAll | src/io/github/ethankelly/model/RequiredTuples.java:70-78 | the nested loops give the lists to make exactly when no index goes out of bounds |
| Required.AddEach | src/io/github/ethankelly/model/RequiredTuples.java:80-83 | the last loop adds each new tuple once |
| Required.RequiredTuples.constructor | src/io/github/ethankelly/model/RequiredTuples.java:35-40 | the object holds its inputs and the tuples are generated at construction |
| Required.RequiredTuples.FindSingles | src/io/github/ethankelly/model/RequiredTuples.java:96-118 | the singles of the states whose toExit is not 0, one per vertex |
| Required.StatesToGenerateFor | src/io/github/ethankelly/model/RequiredTuples.java:97-103 | the copy of the states loses, one removal per state, each state whose toExit is 0 |
| Required.SingleTuples | src/io/github/ethankelly/model/RequiredTuples.java:110-115 | one single-vertex tuple per (state, vertex), in order |
| Required.RequiredTuples.GenTuples | src/io/github/ethankelly/model/RequiredTuples.java:60-88 | the singles plus one tuple per connected subgraph and walk, without repeats and sorted by size, kept in the field; an index error otherwise |
| Required.RequiredTuples.GetTuples | src/io/github/ethankelly/model/RequiredTuples.java:46-51 | generates only when the cache is empty, and otherwise returns it unchanged |
| Required.NotWellFormed | src/io/github/ethankelly/model/RequiredTuples.java:70-72 | one subgraph with no walk of its length makes the whole generation fail |
| ModelTuple.LocationsAsWrittenMissesRepeat | src/io/github/ethankelly/model/Tuple.java:68-79 | for the list S0, S0, S1 indexOf gives both copies of S0 position 0, so the check as written passes a list with a repeated location |
| ModelTuple.LocationsAreDifferentAsWritten | src/io/github/ethankelly/model/Tuple.java:68-79 | as written: a repeated location is rejected only when indexOf tells its two positions apart; LocationsAsWrittenMissesRepeat and LocationsAsWrittenOnDistinct state when that fails and when it agrees |
| ModelTuple.Tuple.LocationsAreDifferent | src/io/github/ethankelly/model/Tuple.java:68-79 | as written: the indexOf check on the tuple's vertices; LocationsAsWrittenOnDistinct and LocationsAgreeWhenConnected state when it agrees with the intended check |
| ModelTuple.LoopFree | src/io/github/ethankelly/model/Tuple.java:54-55 | no vertex of the graph is adjacent to itself, the condition under which isValidTuple as written and as intended agree |
| ModelTuple.LocationsAgreeWhenConnected | src/io/github/ethankelly/model/Tuple.java:54-79 | on a graph without loops, a sorted connected vertex list passes both the check as written and the intended check, since its locations strictly increase |
| ModelTuple.LocationsAsWrittenPassesLoop | src/io/github/ethankelly/model/Tuple.java:54-79 | with a loop at vertex 0, [S0, S0] is connected and passes the check as written although its location repeats |
| ModelTuple.Tuple.AreAllConnected | src/io/github/ethankelly/model/Tuple.java:188-192 | every vertex is in the graph and the VertexState check holds; IsValidTuple uses it |
| ModelTuple.LocationsAsWrittenOnDistinct | src/io/github/ethankelly/model/Tuple.java:68-79 | when no vertex occurs twice, the check as written is the same as the intended one |
| ModelTuple.StatesOf | src/io/github/ethankelly/model/Tuple.java:46-51 | the states of the tuple, each once, exactly those some vertex carries |
| ModelTuple.Int32 | src/io/github/ethankelly/model/Tuple.java:99-101 | the value reduced to the signed 32-bit range, congruent to it modulo 2^32 |
| ModelTuple.ListHash | src/io/github/ethankelly/model/Tuple.java:99-101 | the list hash lies in the int range |
| ModelTuple.Tuple.Single | src/io/github/ethankelly/model/Tuple.java:22-25 | a one-vertex tuple whose length field keeps its default 0 |
| ModelTuple.Tuple.constructor | src/io/github/ethankelly/model/Tuple.java:28-32 | the tuple holds a sorted permutation of the list and records its length |
| ModelTuple.Tuple.IsValidTuple | src/io/github/ethankelly/model/Tuple.java:44-57 | a single is always valid; otherwise valid exactly when the locations differ by the indexOf check as written, the vertices are connected and the states pass validStates; on a sorted tuple in a graph without loops, the same answer as with the intended location check |
| ModelTuple.Tuple.Equals | src/io/github/ethankelly/model/Tuple.java:88-96 | equal tuples hold equal vertex lists; ComparableContract states it is an equivalence that hashCode respects |
| ModelTuple.Tuple.HashCode | src/io/github/ethankelly/model/Tuple.java:98-101 | the hash lies in the int range |
| ModelTuple.Tuple.CompareTo | src/io/github/ethankelly/model/Tuple.java:152-156 | negative exactly when this tuple is larger, positive exactly when it is smaller |
| ModelTuple.Tuple.AddAsWritten | src/io/github/ethankelly/model/Tuple.java:134-140 | the vertex is added and the list re-sorted, but the answer is always false, since the copy shares the list |
| ModelTuple.Tuple.Add | src/io/github/ethankelly/model/Tuple.java:134-140 | the vertex is added and the list re-sorted, and the answer is true, as the list grew |
| ModelTuple.ComparableContract | src/io/github/ethankelly/model/Tuple.java:88-156 | equals is an equivalence that hashCode respects; compareTo is antisymmetric and transitive, and tied tuples compare alike with every third one, as Collections.sort and hash maps keyed by tuples need |
| ModelTuple.AddInserts | src/io/github/ethankelly/model/Tuple.java:134-140 | adding to a sorted list and sorting inserts the vertex after the entries at or below its location |
| Necessary.SortEach | src/io/github/ethankelly/NecessaryEquations.java:24 | every candidate is sorted, one result per candidate |
| Necessary.SortEachAt | src/io/github/ethankelly/NecessaryEquations.java:24 | entry k is candidate k sorted by location |
| Necessary.DrawnFrom2 | src/io/github/ethankelly/NecessaryEquations.java:19-20 | a pair is drawn from the singles exactly when both entries are singles |
| Necessary.DrawnFrom3 | src/io/github/ethankelly/NecessaryEquations.java:40-42 | a triple is drawn from the singles exactly when all three entries are singles |
| Necessary.SortsOfDrawn | src/io/github/ethankelly/NecessaryEquations.java:17-36 | the sorted candidates are exactly the sorted lists of n entries drawn from the singles |
| Necessary.KeepMembers | src/io/github/ethankelly/NecessaryEquations.java:26-32 | the list holds exactly the sorted candidates that pass the checks |
| Necessary.KeepDistinct | src/io/github/ethankelly/NecessaryEquations.java:29-32 | the contains check keeps every list out a second time |
| Necessary.KeepAppend | src/io/github/ethankelly/NecessaryEquations.java:26-32 | offering one more candidate extends the list by that candidate's outcome |
| Necessary.FindSingles | src/io/github/ethankelly/NecessaryEquations.java:7-15 | one vertex per state per location, state by state, |states| * |vertices| in all |
| Necessary.PairRow | src/io/github/ethankelly/NecessaryEquations.java:20-33 | the inner loop offers [v, w] for every single w |
| Necessary.InPairCands | src/io/github/ethankelly/NecessaryEquations.java:19-34 | the candidates of the first i rows are the pairs whose first entry is among the first i singles |
| Necessary.InAllPairCands | src/io/github/ethankelly/NecessaryEquations.java:19-34 | the candidates of findPairs are exactly the pairs drawn from the singles |
| Necessary.InPairCandsAll | src/io/github/ethankelly/NecessaryEquations.java:19-34 | a list is a candidate of findPairs exactly when it is two singles |
| Necessary.PairsCorrect | src/io/github/ethankelly/NecessaryEquations.java:17-36 | findPairs holds exactly the sorted pairs of singles whose states differ, whose locations differ and whose vertices are adjacent, each once |
| Necessary.OfferOne | src/io/github/ethankelly/NecessaryEquations.java:21-32 | the loop body sorts the candidate and adds it if it passes and is new |
| Necessary.TakeOneMore | src/io/github/ethankelly/NecessaryEquations.java:20 | one more candidate of a row extends the prefix taken |
| Necessary.PairsRow | src/io/github/ethankelly/NecessaryEquations.java:20-33 | the inner loop of findPairs keeps the result equal to the list for one more row |
| Necessary.FindPairs | src/io/github/ethankelly/NecessaryEquations.java:17-36 | the nested loops return exactly the list of kept pairs |
| Necessary.TripleRow | src/io/github/ethankelly/NecessaryEquations.java:41-53 | the innermost loop offers [v, w, x] for every single x |
| Necessary.InPlane | src/io/github/ethankelly/NecessaryEquations.java:40-54 | the candidates for v and the first j values of w are the triples starting with v whose middle entry is among the first j singles |
| Necessary.InFullPlane | src/io/github/ethankelly/NecessaryEquations.java:40-54 | the candidates for v are the triples of singles starting with v |
| Necessary.PrefixStep | src/io/github/ethankelly/NecessaryEquations.java:39 | a value is in the first i singles when it is in the first i-1 or is the i-th |
| Necessary.InTripleCands | src/io/github/ethankelly/NecessaryEquations.java:39-55 | the candidates of the first i outer rows are the triples whose first entry is among the first i singles |
| Necessary.InAllTripleCands | src/io/github/ethankelly/NecessaryEquations.java:39-55 | the candidates of findTriples are exactly the triples drawn from the singles |
| Necessary.InTripleCandsAll | src/io/github/ethankelly/NecessaryEquations.java:39-55 | a list is a candidate of findTriples exactly when it is three singles |
| Necessary.TriplesCorrect | src/io/github/ethankelly/NecessaryEquations.java:38-57 | findTriples holds exactly the sorted triples of singles that pass the three checks, each once |
| Necessary.TriplesRow | src/io/github/ethankelly/NecessaryEquations.java:41-53 | the innermost loop keeps the result equal to the list for one more row |
| Necessary.PlaneStep | src/io/github/ethankelly/NecessaryEquations.java:40-54 | appending the next row of a plane gives the plane one row further on |
| Necessary.TriplesPlane | src/io/github/ethankelly/NecessaryEquations.java:40-54 | the middle loop keeps the result equal to the list for one more outer row |
| Necessary.TriplesFrom | src/io/github/ethankelly/NecessaryEquations.java:41-55 | the loop over w keeps the result equal to the kept candidates of every row offered so far, ending with the whole plane for v |
| Necessary.FindTriples | src/io/github/ethankelly/NecessaryEquations.java:38-57 | the three nested loops return exactly the list of kept triples |
| Necessary.NeverTerminates | src/io/github/ethankelly/NecessaryEquations.java:66-81 | above 3 no case of the switch matches, so tupleNumber never changes and the loop never ends |
| Necessary.Terminates | src/io/github/ethankelly/NecessaryEquations.java:66-81 | from 0 to 3 the loop ends after exactly tupleNumber passes |
| Necessary.FindTuples | src/io/github/ethankelly/NecessaryEquations.java:60-84 | for more than three vertices the loop never ends; otherwise the triples, then the pairs, then the singles list as one entry |
| Necessary.FindOfSize | src/io/github/ethankelly/NecessaryEquations.java:68-81 | one pass of the switch appends the lists of size k, which come before all lists of smaller sizes |
| CompartmentModel.LastIndexOf | src/io/github/ethankelly/model/Model.java:58-63 | the lookup loop ends with -1 exactly when the state is absent, and otherwise with the last position holding it |
| CompartmentModel.FindStates | src/io/github/ethankelly/model/Model.java:58-63 | the loop finds the last position of each state, or -1 |
| CompartmentModel.Filled | src/io/github/ethankelly/model/Model.java:19-20 | a new n x n matrix |
| CompartmentModel.SetCell | src/io/github/ethankelly/model/Model.java:73-74 | only cell [i][j] changes, to the new value |
| CompartmentModel.WithTransition | src/io/github/ethankelly/model/Model.java:65-77 | the matrix stays |states| x |states| |
| CompartmentModel.WithTransitionCells | src/io/github/ethankelly/model/Model.java:65-77 | an unknown state changes nothing; otherwise only the cell of the last positions of the two states changes, to the new value |
| CompartmentModel.Model.constructor | src/io/github/ethankelly/model/Model.java:16-21 | the model holds the states and requiresPair, with all-false transitions and all-zero rates |
| CompartmentModel.Model.AddTransition | src/io/github/ethankelly/model/Model.java:51-78 | both matrices become those with the transition added when both states are known, and stay as they were otherwise |
| CompartmentModel.SirTransitions | src/io/github/ethankelly/model/Model.java:23-29 | adding S -> I and then I -> R to S, I, R gives exactly those two transitions |
| ModelParameters.Kept | src/io/github/ethankelly/model/ModelParams.java:139-145 | the kept positions are ascending, each keeps a state that needs more than one neighbour to enter or exit, and every such position is kept |
| ModelParameters.LabelsAt | src/io/github/ethankelly/model/ModelParams.java:143 | the labels are the states at the kept positions |
| ModelParameters.Induced | src/io/github/ethankelly/model/ModelParams.java:146 | the filter graph joins two kept positions exactly when the transition graph joins their states |
| ModelParameters.LastIndexOfDistinct | src/io/github/ethankelly/model/ModelParams.java:101-104 | with distinct states, the lookup finds each state at its own position |
| ModelParameters.FilterLabels | src/io/github/ethankelly/model/ModelParams.java:132-150 | a state is a label of the filter graph exactly when entering or leaving it needs more than one neighbour |
| ModelParameters.FilterEdges | src/io/github/ethankelly/model/ModelParams.java:132-150 | between two labels of the filter graph there is an edge exactly when the transition graph has one between those states |
| ModelParameters.ModelParams.constructor | src/io/github/ethankelly/model/ModelParams.java:37-48 | the object holds the states and requirements, no transitions, zero rates, no printable rates and no filter yet |
| ModelParameters.ModelParams.AddSymbolTransition | src/io/github/ethankelly/model/ModelParams.java:58-70 | the printable rate is recorded at the two states' cell and the directed edge is added |
| ModelParameters.ModelParams.AddTransition | src/io/github/ethankelly/model/ModelParams.java:96-118 | when both states are known the rate is stored at their cell and the directed edge added; otherwise nothing changes |
| ModelParameters.ModelParams.GetFilterGraph | src/io/github/ethankelly/model/ModelParams.java:132-150 | the first call computes the filter graph of the current transitions and keeps it; later calls return the kept graph |
| ModelParameters.SirFilter | test/io/github/ethankelly/model/ModelParamsTest.java:12-24 | for the SIR parameters with S -> I and I -> R, the filter graph has labels S, I and the single edge S -> I |
| ModelParameters.SirKept | src/io/github/ethankelly/model/ModelParams.java:139-145 | S and I are kept, R is not |
| PathFinding.PushShrinks | src/io/github/ethankelly/graph/PathFinder.java:32-33 | pushing a vertex not on the path leaves fewer unvisited vertices, so the search ends |
| PathFinding.BranchMember | src/io/github/ethankelly/graph/PathFinder.java:40-44 | a path the neighbour loop records was recorded by the call on some neighbour not on the path |
| PathFinding.BranchHas | src/io/github/ethankelly/graph/PathFinder.java:40-44 | the neighbour loop records whatever the call on any neighbour not on the path records |
| PathFinding.WalkSound | src/io/github/ethankelly/graph/PathFinder.java:30-49 | every path dfs(v, t) records is a simple path from v to t followed by the current deque, and repeats no vertex |
| PathFinding.SoundStep | src/io/github/ethankelly/graph/PathFinder.java:40-44 | a path back from t to a neighbour w of v, then v, is a path back from t to v |
| PathFinding.WalkComplete | src/io/github/ethankelly/graph/PathFinder.java:30-49 | every simple path from v to t that avoids the deque is recorded by dfs(v, t) |
| PathFinding.WalkExactly | src/io/github/ethankelly/graph/PathFinder.java:30-49 | from an empty deque, dfs(v, t) records exactly the simple paths from v to t |
| PathFinding.StackLength | src/io/github/ethankelly/graph/PathFinder.java:42 | a path that repeats no vertex has at most as many vertices as the graph |
| PathFinding.Put | src/io/github/ethankelly/graph/PathFinder.java:37 | recording a path keeps the number of buckets |
| PathFinding.StoredAppend | src/io/github/ethankelly/graph/PathFinder.java:37 | recording two runs of paths in turn is recording their concatenation |
| PathFinding.StoredBuckets | src/io/github/ethankelly/graph/PathFinder.java:37 | bucket k gains exactly the recorded paths with k + 1 vertices, in the order they were found |
| PathFinding.OfLengthHas | src/io/github/ethankelly/graph/PathFinder.java:37 | the paths bucket k gains are the recorded paths with k + 1 vertices |
| PathFinding.RowExactly | src/io/github/ethankelly/graph/PathFinder.java:26 | dfs from i to every t records exactly the simple paths starting at i |
| PathFinding.RowsExactly | src/io/github/ethankelly/graph/PathFinder.java:26 | findPaths records exactly the simple paths between any two vertices |
| PathFinding.BucketHoldsPaths | src/io/github/ethankelly/graph/PathFinder.java:17-27 | after findPaths on a new finder, bucket l - 1 holds exactly the simple paths with l vertices |
| PathFinding.PathFinder.constructor | src/io/github/ethankelly/graph/PathFinder.java:17-23 | nothing on the path, nothing marked, one empty bucket per vertex |
| PathFinding.PathFinder.FindPaths | src/io/github/ethankelly/graph/PathFinder.java:25-27 | the buckets gain the paths of dfs over every ordered pair of vertices; the deque is empty again |
| PathFinding.PathFinder.FindFrom | src/io/github/ethankelly/graph/PathFinder.java:26 | the inner loop adds the paths of dfs(i, j) for every j, in order |
| PathFinding.PathFinder.Dfs | src/io/github/ethankelly/graph/PathFinder.java:30-49 | the buckets gain exactly the paths Walk gives, and the deque and the marks are restored |
| PathFinding.PathFinder.Explore | src/io/github/ethankelly/graph/PathFinder.java:40-44 | the neighbour loop adds the paths Branch gives, and leaves the deque as it was |
| PathFinding.PathFinder.FindPathsOfLength | src/io/github/ethankelly/graph/PathFinder.java:55-56 | for l up to the vertex count, bucket l - 1, or an index error when l < 1 or there is no such bucket |
| GraphUtils.Level | src/io/github/ethankelly/graph/GraphUtils.java:35-50 | every cell of a computed table is the cell rule of countWalks: 1 on the diagonal for 0 edges, the edge for 1, the neighbour sum beyond |
| GraphUtils.Walks | src/io/github/ethankelly/graph/GraphUtils.java:30-53 | the walk-count table for e edges is n x n |
| GraphUtils.SumPositive | src/io/github/ethankelly/graph/GraphUtils.java:44-47 | a neighbour sum of non-negative counts is non-negative, and positive exactly when some neighbour a of i has a positive count to j |
| GraphUtils.WalksNonNegative | src/io/github/ethankelly/graph/GraphUtils.java:30-53 | no walk count is negative |
| GraphUtils.WalksCountWalks | src/io/github/ethankelly/graph/GraphUtils.java:33-47 | the count for i, j and e edges is positive exactly when there is a walk with e edges from i to j |
| GraphUtils.WalkExtend | src/io/github/ethankelly/graph/GraphUtils.java:44-47 | an edge i -> a in front of a walk from a to j is a walk from i to j with one more edge |
| GraphUtils.WalkTail | src/io/github/ethankelly/graph/GraphUtils.java:44-47 | a walk with at least one edge is an edge followed by a shorter walk |
| GraphUtils.WalkCache.constructor | src/io/github/ethankelly/graph/GraphUtils.java:32 | the graph starts with no stored tables |
| GraphUtils.WalkCache.CountWalks | src/io/github/ethankelly/graph/GraphUtils.java:28-62 | fails with an index error only when nothing was stored and k < 0; otherwise stores tables up to k edges, keeps the ones already stored, computes each new one from the one below it, and zeroes table 0 |
| GraphUtils.WalkCache.ComputeUpTo | src/io/github/ethankelly/graph/GraphUtils.java:30-53 | stores tables up to k edges, keeps every table already stored, and computes each new one from the one below it |
| GraphUtils.WalkCache.Table | src/io/github/ethankelly/graph/GraphUtils.java:34-50 | the loops over i and j fill the table the cell rule gives |
| GraphUtils.WalkCache.CellValue | src/io/github/ethankelly/graph/GraphUtils.java:38-48 | one cell: 0, then the base cases, then the sum over the neighbours a of i |
| GraphUtils.FreshCacheHoldsWalks | src/io/github/ethankelly/graph/GraphUtils.java:28-62 | on a graph with no stored tables, countWalks(k) leaves, for 1 <= e <= k, the number of walks with e edges |
| GraphUtils.Insertions | src/io/github/ethankelly/graph/GraphUtils.java:153-157 | the element inserted at each index 0 .. size, in that order |
| GraphUtils.InsertAllMember | src/io/github/ethankelly/graph/GraphUtils.java:152-158 | the lists built are exactly the smaller orderings with the first element inserted at some index |
| GraphUtils.InsertAllLength | src/io/github/ethankelly/graph/GraphUtils.java:152-158 | m orderings of length k give m * (k + 1) lists |
| GraphUtils.InsertedMultiset | src/io/github/ethankelly/graph/GraphUtils.java:155 | inserting an element adds exactly that element |
| GraphUtils.PermsSound | src/io/github/ethankelly/graph/GraphUtils.java:143-160 | every list getListPerm returns holds the same elements as the input |
| GraphUtils.PermsComplete | src/io/github/ethankelly/graph/GraphUtils.java:143-160 | every ordering of the input's elements is returned |
| GraphUtils.TakeOut | src/io/github/ethankelly/graph/GraphUtils.java:149-156 | an ordering of the input is its first element inserted into an ordering of the rest |
| GraphUtils.PermLength | src/io/github/ethankelly/graph/GraphUtils.java:143-160 | every returned list is as long as the input |
| GraphUtils.PermsCount | src/io/github/ethankelly/graph/GraphUtils.java:143-160 | n elements give n! lists |
| GraphUtils.GetListPerm | src/io/github/ethankelly/graph/GraphUtils.java:143-160 | the loops return exactly the orderings Perms lists, in the same order |
| GraphUtils.InsertEverywhere | src/io/github/ethankelly/graph/GraphUtils.java:153-157 | the inner loop gives x inserted at every index 0..n of the smaller ordering, in increasing index |
| GraphUtils.ReorderedAdd | src/io/github/ethankelly/graph/GraphUtils.java:137 | adding one list of the tail adds the orderings of head + that list |
| GraphUtils.PowerSetAsWritten | src/io/github/ethankelly/graph/GraphUtils.java:124-141 | as written, the set holds each list of the tail's power set and every ordering of head + that list |
| GraphUtils.ArrangementsHaveSubsequences | src/io/github/ethankelly/graph/GraphUtils.java:124-141 | as written, every subsequence is returned |
| GraphUtils.PowerSetAsWrittenHasReordering | test/io/github/ethankelly/graph/GraphUtilsTest.java:11-32 | as written, powerSet([1, 2, 3]) also holds [2, 1], which is not among the eight lists the test expects |
| GraphUtils.PowerSet | src/io/github/ethankelly/graph/GraphUtils.java:124-141 | the corrected power set is the set of subsequences |
| GraphUtils.SubsequencesExactly | src/io/github/ethankelly/graph/GraphUtils.java:124-141 | a list is in the corrected power set exactly when it is a subsequence of the input |

## Left out

- Console and file I/O, printing, `toString` methods, and the CSV and plotting code are not modelled. They compute nothing the rest of the core uses.
- Floating point is left out. The continuous distributions of Rand and the ODE code are not modelled. Rates are only stored, so they are `real` values.
- The erdosRenyi, bipartite, completeBipartite, eulerianPath, eulerianCycle and wheel generators are not modelled. getGraph returns `Ok(None)` for them (GraphByName.Outside).
- GraphByName.GetGraph: a negative vertex count also gives `Ok(None)`, because the generators here take a `nat`. What Java does with a negative array size is not modelled.
- GraphByName.LowerChar: toLowerCase is modelled on ASCII letters only, and non-ASCII digits are not accepted by parseIntegers.
- Graph.getCharWalks and PathFinder.combSearch are not part of this model. RequiredTuples takes their results as constants.
- GraphUtils.spliceUtil, the DFS helpers of GraphUtils, and the getCutVertexFreq bookkeeping are not modelled. MainGraph.Graph.Splice models splice on the matrix graph itself.
- GraphUtils.GetListPerm: getListPerm empties its argument list through `remove(0)`. The model takes the list as a value, and every caller passes a fresh copy.
- GraphUtils.WalkCache.CountWalks: counts are unbounded integers, so the `Integer` overflow of very long walks is not modelled.
- CutVertices.GetCutVertices does not prove that the vertices found are exactly the articulation points. It promises an ascending list of vertices, each with two neighbours. The same weaker contract holds for ListGraph.Graph.GetCutVertices, MatrixGraph.Graph.GetCutVertices and MainGraph.Graph.GetCutVertices.
- The named cut-vertex results of the graph tests (lollipop [0], toast none) are not proved, since they need articulation correctness.
- Tuples.Tuples.GenerateTuples: the SIR tuple counts of the printing tests (6 and 7 on an edge, 18 and 22 on a triangle) are not proved. The method returns the list as written. Its members are stated by Tuples.GeneratedAsWrittenSound and Tuples.GeneratedAsWrittenComplete: it keeps disconnected tuples, so it holds more than the intended list (Tuples.GeneratedInAsWritten, Tuples.GeneratedAsWrittenKeepsDisconnected).
- Tuples.GeneratedAsWrittenSound, Tuples.GeneratedAsWrittenComplete, Tuples.GeneratedSound and Tuples.GeneratedComplete state which tuples each list holds, not how often. Whether the enumeration repeats a tuple is not proved.
- Tuples.KeepValid, Tuples.Generated, Tuples.GeneratedSound, Tuples.GeneratedComplete and Tuples.GeneratedDecreasing describe generateTuples as intended, with size() the tuple's real size. As written, generateTuples does not sort: compareTo ties every pair, so Collections.sort keeps the enumeration order (Tuples.SortAsWritten). Its result is therefore not in decreasing size order.
- Tuples.GeneratedDecreasing holds of the intended list only. The list as written (Tuples.GeneratedAsWritten) keeps the enumeration order, because compareTo as written ties every pair.
- Tuples.Tuples.FindSingles sorts with compareTo as written, which changes nothing. The intended sort would change nothing either (Tuples.SinglesDecreasing).
- Required.RequiredTuples.GenTuples: the test sizes 6 and 18 are not proved, because they depend on getCharWalks and combSearch.
- Generators.Simple: the loop redraws a rejected pair until it finds a new one. The model takes the accepted draws as given, so it does not model how many draws that takes, or whether it terminates.
- PruferTree.Tree is proved to build n - 1 edges in range without loops, as the Prüfer decoding gives them. It is not proved to be connected, or to be drawn uniformly.
- Generators.Build: toast, triangle and lollipop are shared static objects in Java. Here each call builds a fresh graph, so aliasing between callers is not modelled.
- Java `int` overflow in the generators (n * k, n * (n - 1) / 2) and in Rand.discrete's sum is not modelled, except for the explicit Integer.MAX_VALUE check of discrete.
- ModelParameters.ModelParams.GetFilterGraph: the cached filter graph is kept when transitions are added later, as in Java, so it can be stale. The contract says so (the cache is returned unchanged) rather than treating it as a defect.
- The Graph class with directed edges that ModelParams and countWalks use is not part of this model. Its adjacency matrix stands in for it.
- PathFinding.PathFinder.FindPathsOfLength: the branch for l greater than the vertex count, which glues stored paths together, is not modelled and returns `Ok(None)`.
- PathFinding.PathFinder.FindPaths requires the onPath array to cover the graph it is given. Java sizes that array from the constructor's graph.
- CompartmentModel.Model: the setters and the aliasing of the shallow `clone()` copies are not modelled. The validStates field and the `int[]` constructor that ModelTest uses do not exist in Model.java, so they are not modelled.
- The Vertex(char, int) class that the tuple code builds is not part of this model. It is the VertexState value, with value equality. This includes the `contains` tests of NecessaryEquations.
- Required.RequiredTuples.constructor requires WellFormed, so it does not model the IndexOutOfBoundsException that Java's constructor throws through genTuples when a subgraph has no walk of its length. Required.RequiredTuples.GenTuples and Required.MakeAll model that error path (an error exactly when the input is not WellFormed).
- Required.RequiredTuples.constructor: Java calls getTuples before it sets the closures field. genTuples does not read that field, so the model sets every field first and does not model the half-built object.
- The hashCode and equals of Tuples.Tuple and RequiredTuples.Tuple (inherited or generated) are not modelled. Tuples compare by value.

## Findings

| source | as written | input that shows it | evidently intended | confidence | as-written member | corrected member |
|---|---|---|---|---|---|---|
| src/io/github/ethankelly/graph/Graph.java:400-414 | clone() places each copied list at `indexOf(list)`, the first equal list, so equal lists displace others | the path 0-1-2: lists [1], [0, 2], [1]; the copy makes 0 and 2 adjacent and loses edge 1-2 | the copy of list k lands at position k | not executed | ListGraph.CloneAsWrittenLosesEdge | ListGraph.Graph.CloneIntended |
| src/io/github/ethankelly/graph/Graph.java:279-296 | appendVertices calls addEdge(i, j) for every ordered pair with hasEdge, so each edge is added twice | the single edge 0-1 with appendVertices(0): after removeEdge(0, 1) the vertices are still adjacent | each edge copied once | not executed | ListGraph.AppendAsWrittenBreaksRemoveEdge | ListGraph.AppendedKeepsEdges |
| src/main/io/github/ethankelly/Graph.java:314-327 | isMinimallyConnected removes each edge and returns false on a split, but never restores the removed edges | the kite 0-1, 1-2, 1-3, 2-3: the first removal, of 0-1, isolates vertex 0, so no later removal leaves one component, and the kite, which has the cycle 1-2-3, is accepted | connected, and every edge is a bridge | not executed | MainGraph.MinConnectedAsWrittenAcceptsCycle | MainGraph.Graph.IsMinimallyConnected |
| src/main/io/github/ethankelly/Graph.java:302-312 | removeBridges compares each new component count with the count taken before the loop, not the current one | removeBridges(1) on the test graph G2, the triangle 0-1-4 with the tail 1-2-3: once the bridge 1-2 is gone there are two components, so the triangle edge 1-4 is removed too | an edge whose removal does not raise the current count is restored | not executed | MainGraph.BridgesRemovedAsWrittenDropsTriangleEdge | MainGraph.BridgesRemovedKeepsTriangle |
| src/io/github/ethankelly/graph/GraphGenerator.java:389-393 | Edge.compareTo returns -1 when either endpoint is smaller | Edge(0, 5) and Edge(1, 2) are each less than the other | a lexicographic order, antisymmetric and transitive | not executed | Generators.CompareToAsWrittenNotAntisymmetric | Generators.CompareToIsOrder |
| src/io/github/ethankelly/graph/GraphGenerator.java:406-422 | simple keeps its Edge objects in a HashSet without equals or hashCode, so the same pair drawn twice counts as two edges | on 3 vertices with m = 2, the draws (0, 1) then (1, 0) give one edge | m distinct edges | not executed | Generators.SimpleAsWrittenRepeatsEdge | Generators.Simple |
| src/io/github/ethankelly/Tuples.java:205-209, 362-365 | Tuple extends ArrayList but keeps its vertices in its own field, so size() is always 0 | a single [I0] is judged not required, and a pair compares equal to a single | size() is the number of vertices | not executed | Tuples.SizeAsWrittenMisjudges | Tuples.StatesDifferentCases |
| src/io/github/ethankelly/Tuples.java:259-263 | isValidTuple calls `g.areAllConnected(this)`, handing over the tuple object, whose inherited list is empty, so no connectivity is tested | the path 0-1-2 with SIR and no closures: generateTuples keeps [S0, I2], though 0 and 2 are not adjacent | only tuples whose vertices are connected are kept | not executed | Tuples.GeneratedAsWrittenKeepsDisconnected | Tuples.GeneratedSound |
| src/io/github/ethankelly/model/Tuple.java:68-79 | locationsAreDifferent compares `indexOf` positions, which are equal for two equal entries | [S0, S0, S1] is accepted, though location 0 repeats | false whenever two entries share a location | not executed | ModelTuple.LocationsAsWrittenMissesRepeat | ModelTuple.LocationsAsWrittenOnDistinct |
| src/io/github/ethankelly/model/Tuple.java:134-140 | add copies the tuple, whose constructor keeps the same list object, and compares the list with itself | any add returns false, even when the list changed | true exactly when the sorted list changed | not executed | ModelTuple.Tuple.AddAsWritten | ModelTuple.Tuple.Add |
| src/io/github/ethankelly/Tuples.java:188-196, 316-321 | add copies the tuple around the same list, so it compares the list with itself; a tuple built by Tuple(Vertex) holds Collections.singletonList, which refuses add | any add on a growable tuple returns false although the list grew; add on a single throws UnsupportedOperationException | a growable list, and true exactly when the list changed | not executed | Tuples.AddAsWrittenMisreports | Tuples.Add |
| src/io/github/ethankelly/model/RequiredTuples.java:380-386 | add copies the tuple around the same list and compares the list with itself | any add returns false although the list grew | true exactly when the list changed | not executed | Required.AddAsWrittenMisreports | Required.Add |
| src/io/github/ethankelly/graph/GraphUtils.java:124-141 | powerSet adds every ordering of head + set, not just head + set | powerSet([1, 2, 3]) holds [2, 1], which the repository's test does not expect | exactly the subsequences | not executed | GraphUtils.PowerSetAsWrittenHasReordering | GraphUtils.SubsequencesExactly |
